# A model of the metadata and access core, with proofs

The repository reads the metadata that a 1C:Enterprise information base stores in its own
database: raw-DEFLATE resources, serialized "brace" text, containers of named documents,
physical table names, and the restriction texts that roles attach to tables. This project
models the parts of it that decode, parse, evaluate and index, and proves what each of
them is for. The model follows the form of the source: decoders, parsers and evaluators
that move a cursor or fill a vector are methods and classes with loops; each is proved
equal to a specification function, and the lemmas then say what that function means.

* **Raw DEFLATE** (`Bits`, `BitReading`, `Canonical`, `HuffmanTable`, `Lz77`, `InflateSpec`,
  `Inflate`, `Rfc1951`, `InflateExact`, `InflateTheorem`, `FixedCodes`, `UniqueStreams`,
  `StandardDeflate`).
  The bit reader with its three-byte window, the lookup table two trees share, the doubling
  slice copy, the dynamic header and the block loop. `Rfc1951` states a format from the
  encoder's side: that of section 3.2 of RFC 1951, as wide as the decoder takes it. The main
  theorem, `InflateTheorem.InflateIsExact`, goes both ways: inflating gives an output exactly
  when the input begins with a stream of that format which expands to the output and the
  output fits the limit; `UniqueStreams` shows that there is at most one such stream.
  `StandardDeflate` marks the streams RFC 1951 itself describes and proves which of the
  inputs that inflate hold one. `FixedCodes` writes the tables of sections 3.2.5 to 3.2.7 in
  arithmetic, without the functions of the decoder, and proves that data written by them inflate.
* **Brace text** (`WhiteSpace`, `BraceText`, `ValueTree`, `BraceForms`, `Scalars`, `ScalarText`,
  `DbNames`, `EntryText`, `ConfigTree`, `ConfigAgreement`, `ConfigStream`, `ConfigText`, `Utf8`,
  `ByteText`). `BraceForms` has every text of the format as a written form and proves that a text
  is read as a value exactly when it writes the value. The one-pass parsers of DBNames and of
  Config resources against the recursive walks of the parsed tree. The Config parser learns the
  purpose of a list after descendants of its first child were projected, and repairs them by
  depth. `ScalarText`, `EntryText` and `ConfigText` say which texts are identifiers, numbers,
  entries and descriptors, by letters and place values. `ByteText` has the scanners over UTF-8
  bytes.
* **Restriction texts** (`Slices`, `DirectiveTokens`, `Tokenizing`, `Expressions`,
  `ExpressionsExact`, `ExprParsing`, `ConditionText`, `Directives`, `DirectiveTrees`,
  `DirectiveRuns`, `DirectiveSplitting`, `Wording`, `ExpressionMeaning`). Splitting at directives,
  the one-pass evaluator, the tree parser, and the precedence-climbing evaluator of conditions.
  `Wording` spells the words of the language letter by letter, and `ExpressionMeaning` has the
  truth conditions of every operator.
* **Names and tables** (`Names`, `PhysicalIndex`, `TableSelection`, `SelectionChains`). A hash
  index that stands for a linear scan, and the fixpoint that selects tables, which
  `SelectionChains` describes by finite chains of owners and extension bases.
* **Containers** (`Container`, `ContainerLayout`, `ContainerEntries`, `ContainerBytes`). Chains of
  blocks with cycle detection, and the table of contents; `ContainerBytes` writes them byte by byte.
* **Supporting cores** (`Lexing`, `LexerRuns`, `Lexemes`, `ContentKeys`, `KeyText`,
  `StagedDescriptors`, `StagedSections`, `FormText`, `Recasing`, `LogicalFields`, `ColumnNames`,
  `ColumnSpelling`). The query lexer, Base64 keys, all-or-nothing updates of descriptors, and the
  spelling and grouping of column names; each with a module that writes out what is read.

Text is a sequence of characters and offsets count characters, but for `Utf8` and `ByteText`,
which relate them to offsets in UTF-8 bytes; bytes are numbers below 256 and bits are booleans,
lowest bit of a byte first. A cursor error carries the position it was found at, and a
diagnostic is a constructor instead of a message text.

## Where the code and its documents differ

The code is followed in each case.

* A dynamic header may declare 287 or 288 literal codes, where section 3.2.7 of RFC 1951 has HLIT
  stop at 286; the symbols 286 and 287 are refused only when they are decoded. Codes that leave bit
  patterns unused are accepted for every tree, where RFC 1951 knows only a single distance code as
  an incomplete set; an unused pattern is refused when it is met. `StandardDeflate.FewLiteralsInflate`
  gives an input of either kind.
* The length symbol 284 is taken with all its extra bits set, for a length of 258, which section
  3.2.5 of RFC 1951 gives to the symbol 285 alone (`StandardDeflate.LongMatchInflates`).
* With these three departures the inputs taken are exactly known: `StandardDeflate.InflatesStandard`
  says by the header fields, the Kraft remainders and the length symbols when what inflates is a
  stream of RFC 1951.
* A value in a condition may be left open: without its closing parenthesis it ends with the
  expression, as in `value(x) = value(x` (`ExpressionsExact.OpenValueAccepted`). That is so exactly
  when an accepted condition has more opening parentheses than closing ones
  (`ExpressionsExact.ClosedExactly`).
* The recursive walk of a Config resource and the streaming parser are promised to agree. They
  do not where a self-reference is headed by the string "Pattern"
  (`ConfigAgreement.WalksCanDiffer`); `ConfigAgreement.WalksAgreeExactly` gives the exact condition.

## Model

| member | source | states |
|---|---|---|
| `InflateTheorem.InflateIsExact` | src/metadata/deflate.rs:38-82 | inflating gives out if and only if out fits the limit and some list of stored, fixed and dynamic blocks of the format of `Rfc1951`, which is RFC 1951 with up to 288 literal codes, incomplete codes and length 258 by the symbol 284, is written at the start of the input and expands to out |
| `UniqueStreams.DescriptionIsUnique` | src/metadata/deflate.rs:38-82 | an input begins with at most one block list: two that are written there are the same blocks and expand to the same output |
| `UniqueStreams.SameStream` | src/metadata/deflate.rs:46-82 | two block lists written at one place, after the same output, are equal: padding, runs, codes and tokens are all determined |
| `StandardDeflate.InflatesStandard` | src/metadata/deflate.rs:38-82 | an input holds a stream of RFC 1951 that expands to out, within the limit, if and only if it inflates to out, every HLIT read is at most 29, every Kraft remainder is zero or one of the distance exceptions, and no length symbol 284 has all extra bits set |
| `StandardDeflate.BodyShows` | src/metadata/deflate.rs:46-76 | the same for one written block: it keeps to RFC 1951 if and only if its own header fields and symbols show it |
| `StandardDeflate.FewLiteralsInflate` | src/metadata/deflate.rs:110-138 | an input with 288 literal codes, and one with an incomplete literal code: both inflate and hold no stream of RFC 1951 |
| `StandardDeflate.LongMatchInflates` | src/metadata/deflate.rs:203-223 | an input that writes the length 258 with the symbol 284 inflates and holds no stream of RFC 1951 |
| `InflateTheorem.InflateRawDeflate` | src/metadata/deflate.rs:28-30 | with the default limit of 256 MiB, the result is the output of a described stream, and every described output within the limit is found |
| `InflateTheorem.RoundTrip` | src/metadata/deflate.rs:38-82 | any valid block list, packed into bytes, inflates to its expansion |
| `InflateTheorem.FixedRoundTrip` | src/metadata/deflate.rs:101-108 | every token list whose references stay in range, written as one fixed block, inflates to its LZ77 expansion |
| `FixedCodes.LiteralCodeword` | src/metadata/deflate.rs:101-108 | the fixed literal code is the table of section 3.2.6 of RFC 1951 in arithmetic: 0x30 + s in eight bits up to 143, 0x190 + s - 144 in nine up to 255, s - 256 in seven up to 279, 0xC0 + s - 280 in eight above |
| `FixedCodes.DistanceCodeword` | src/metadata/deflate.rs:101-108 | the fixed distance code of s is s in five bits |
| `FixedCodes.LengthIsWritten` | src/metadata/deflate.rs:6-20 | every length from 3 to 258 is the base and extra bits of the symbol section 3.2.5 of RFC 1951 gives it, found by halving |
| `FixedCodes.DistanceIsWritten` | src/metadata/deflate.rs:6-20 | every distance up to 32768 is the base and extra bits of its symbol, found by halving |
| `FixedCodes.FixedDataInflates` | src/metadata/deflate.rs:38-108 | literals and matches written by these tables after the bits 1, 1, 0, with seven zeros behind them, packed into bytes, inflate to the data |
| `FixedCodes.EmptyBlockInflates` | src/metadata/deflate.rs:38-108 | the bytes 3 and 0 inflate to nothing |
| `FixedCodes.SentOutwards` | src/metadata/deflate.rs:117-123 | code-length codes are sent for 16, 17, 18, 0 and then from 8 outwards to 7, 9, 6 and so on to 15 |
| `InflateTheorem.StoredRoundTrip` | fuzz/src/lib.rs:234-242 | what the stored encoder writes inflates to the same data |
| `InflateTheorem.BodyWritten` | src/metadata/deflate.rs:46-76 | a written block of any of the three kinds decodes to its expansion and leaves the position after it |
| `InflateTheorem.WrittenIsBody` | src/metadata/deflate.rs:46-76 | a block that decodes is a written block of that kind: nothing else is accepted |
| `InflateTheorem.StreamWritten` | src/metadata/deflate.rs:50-82 | a written stream decodes to its expansion, block after block from the output so far |
| `InflateTheorem.WrittenIsStream` | src/metadata/deflate.rs:50-82 | whatever decodes as a stream is a written stream that expands to the decoded output |
| `Inflate.InflateRawDeflateBounded` | src/metadata/deflate.rs:38-82 | the block loop terminates on every byte string, gives what the specification gives with the same error and position, and never holds more than the limit |
| `Inflate.StoredBlock` | src/metadata/deflate.rs:84-99 | aligns, checks the length against its complement and appends the bytes within the limit |
| `Inflate.CompressedBlock` | src/metadata/deflate.rs:185-231 | builds both trees and decodes symbols up to the end of block, every symbol moving the position forward |
| `Inflate.ReadDynamicLengths` | src/metadata/deflate.rs:110-138 | the literal and distance lengths of a dynamic block, or the error of the first fault |
| `Inflate.AppendDynamicLength` | src/metadata/deflate.rs:140-166 | one code-length symbol: a length, a repeat of the previous one or a run of zeros, never past the total |
| `Inflate.LengthVector.AppendRun` | src/metadata/deflate.rs:168-183 | repeats a length, or refuses a run longer than the declared total allows |
| `InflateExact.HeaderWritten` | src/metadata/deflate.rs:110-130 | a written dynamic header gives the counts and the code it was written from |
| `InflateExact.PreambleWritten` | src/metadata/deflate.rs:110-138 | a written preamble gives exactly its two length lists: the run expansion cut at the number of literal codes |
| `InflateExact.WrittenIsPreamble` | src/metadata/deflate.rs:110-138 | whatever decodes as a dynamic header is a written one: exactly the declared lengths, none over 15, the end-of-block code present |
| `InflateExact.TokensWritten` | src/metadata/deflate.rs:185-231 | written tokens and their end decode to the expansion of the tokens |
| `InflateExact.WrittenIsTokens` | src/metadata/deflate.rs:185-231 | whatever decodes as the symbols of a block is the writing of a token list whose references are in range |
| `InflateExact.FixedTreesUsable` | src/metadata/deflate.rs:101-108 | the fixed length lists are accepted as codes |
| `InflateSpec.Blocks` | src/metadata/deflate.rs:46-82 | a block sequence that succeeds moves past its bits and ends within the stream |
| `HuffmanTable.Build` | src/metadata/deflate.rs:279-349 | for every length list: the right diagnostic, no tree, or a new region of the shared table that represents the canonical code, with the trees already there untouched |
| `HuffmanTable.PlaceSymbol` | src/metadata/deflate.rs:326-348 | fills exactly the slots whose low bits are the reversed code, none of them written before |
| `HuffmanTable.SlotFree` | src/metadata/deflate.rs:338-346 | the slot a code writes is still unused: no table slot is written twice |
| `HuffmanTable.Decode` | src/metadata/deflate.rs:351-364 | one table lookup gives the symbol the canonical code gives, or the same error at the same position |
| `HuffmanTable.DecodeSymbolExact` | src/metadata/deflate.rs:351-364 | a symbol is decoded if and only if its codeword is a prefix of the remaining bits |
| `HuffmanTable.LookupDecodes` | src/metadata/deflate.rs:351-364 | the slot of a window padded with zeros decides correctly, also when the real bits end inside it |
| `HuffmanTable.ReverseBits` | src/metadata/deflate.rs:367-374 | the reversed code is the value of the codeword read first bit lowest |
| `HuffmanTable.RepresentsExtends` | src/metadata/deflate.rs:266-271 | a tree stays readable when another one is appended to the table |
| `Canonical.PrefixFree` | src/metadata/deflate.rs:293-336 | no codeword of an accepted length list is a prefix of another |
| `Canonical.CodeFits` | src/metadata/deflate.rs:321-336 | every code fits its length |
| `Canonical.CodesFollowLengthThenSymbol` | src/metadata/deflate.rs:321-336 | codes, as left-aligned bit strings, are ordered by length and then by symbol, as section 3.2.2 of RFC 1951 prescribes |
| `Canonical.UsedPlusFree` | src/metadata/deflate.rs:308-320 | at every length, the codes used and the codes left make up all codes of that length |
| `Canonical.UniqueMatch` | src/metadata/deflate.rs:351-364 | at most one symbol matches any bit string |
| `BitReading.BitReader.Window` | src/metadata/deflate.rs:395-409 | the three-byte window holds the next bits of the stream |
| `BitReading.BitReader.PeekBitsPadded` | src/metadata/deflate.rs:395-409 | the next bits of the stream, with zeros past its end, for every count the window can serve |
| `BitReading.BitReader.ReadBits` | src/metadata/deflate.rs:386-393 | the value of the next bits, or a truncated-stream error with nothing consumed |
| `BitReading.BitReader.NextBytes` | src/metadata/deflate.rs:444-458 | the next whole bytes at an aligned position, or the error of a misaligned or short stream |
| `Lz77.Output.CopyBackReference` | src/metadata/deflate.rs:254-263 | the doubling slice copy equals the byte-by-byte copy for every distance and length |
| `Lz77.CopyRepeats` | src/metadata/deflate.rs:254-263 | every copied byte equals the byte one distance before it, overlapping or not |
| `Lz77.RepeatsAreUnique` | src/metadata/deflate.rs:254-263 | that equation determines the copy |
| `Lz77.SliceKeepsPattern` | src/metadata/deflate.rs:256-262 | the loop step: appending a slice that starts whole distances back keeps the pattern |
| `Lz77.Output.Reserve` | src/metadata/deflate.rs:233-252 | more bytes are admitted only while the total stays within the limit |
| `Lz77.MatchOfIsExact` | src/metadata/deflate.rs:6-20 | every length from 3 to 258 and distance from 1 to 32768 has a token of that length and distance in the tables |
| `BraceText.WrittenIsString` | src/metadata/db_names.rs:538-569 | the segment scanner succeeds only on doubled-quote text and gives the text it doubles |
| `BraceText.StringWritten` | src/metadata/db_names.rs:538-569 | a string written with doubled quotes is read back, ending after its closing quote |
| `BraceText.TextCursor.ReadString` | src/metadata/db_names.rs:538-569 | the segment-wise scanner, which copies only at doubled quotes, gives the specified string and position or the same error |
| `Utf8.BoundariesExactly` | src/metadata/db_names.rs:538-569 | a byte offset is a character boundary if and only if it is the offset of a place in the text |
| `Utf8.FindByteIsFindChar` | src/metadata/db_names.rs:542-545 | looking for ASCII byte by byte finds the offset of the character that looking by characters finds |
| `Utf8.EncodeIsInjective` | src/metadata/db_names.rs:538-569 | different texts have different UTF-8 bytes |
| `ByteText.ByteCursor.ReadString` | src/metadata/db_names.rs:538-569 | the scanner over bytes, which slices at character boundaries alone, gives the bytes of the string the scanner over characters gives, or the same error at its byte offset |
| `ByteText.ByteCursor.ReadAtomSlice` | src/metadata/db_names.rs:571-579 | the byte scan for a delimiter gives the bytes of the text up to it |
| `ValueTree.PrintThenParse` | src/metadata/value.rs:63-75 | every printable tree, printed, parses back to itself |
| `ValueTree.ValueParsed` | src/metadata/value.rs:150-161 | a printed value inside a text parses to the value and leaves the position after it |
| `BraceForms.ReadsExactly` | src/metadata/value.rs:63-289 | a text is read as a value if and only if it writes it: nested lists at most 512 deep, omitted values, quoted strings and trimmed atoms, with white space between tokens |
| `BraceForms.SkippableExactly` | src/metadata/value.rs:271-289 | the white space between tokens is that of Unicode, character by character, without the vertical tab |
| `BraceForms.SpaceExactly` | src/metadata/value.rs:256-269 | what is trimmed from an atom is the white space of Unicode, with the vertical tab |
| `BraceForms.DeepTextFails` | src/metadata/value.rs:163-164 | a text that opens more than 512 lists at its start fails at the 513th brace |
| `ScalarText.NumberExactly` | src/metadata/value.rs:46-51 | an atom is read as a number if and only if it is its decimal digits by place value, perhaps after a plus, below two to the 32 |
| `ScalarText.ZeroAndTooLarge` | src/metadata/db_names.rs:419-424 | zero and two to the 32 make no entry |
| `ScalarText.NoNumber` | src/metadata/db_names.rs:419-424 | a text with any other character than digits, but for a plus before them, is no number |
| `DbNames.DbNamesParser.ParseBraces` | src/metadata/db_names.rs:469-536 | the one-pass list parser appends the entries of the list's walk, in its order, or fails as the tree parser does |
| `DbNames.ParseDbNameEntries` | src/metadata/db_names.rs:385-390 | for every text: the entries of the pre-order walk of its tree, or the tree parser's diagnostic |
| `DbNames.EntriesOfPrinted` | src/metadata/db_names.rs:611-630 | the printed form of any printable tree gives the entries of its walk |
| `EntryText.EntryExactly` | src/metadata/db_names.rs:522-536 | a list is an entry if and only if it is an identifier, a string and the digits of a positive number below two to the 32; the entry has the identifier in lower case |
| `EntryText.EntryOfNumber` | src/metadata/db_names.rs:385-424 | the text of an identifier, an alias and the decimal digits of a number, read by the one-pass parser, gives exactly that entry |
| `EntryText.EntryOfText` | src/metadata/db_names.rs:385-424 | the text of an identifier, an alias and any atom gives the entry whose number the atom says, and none if it says none |
| `EntryText.EntriesOfForm` | src/metadata/db_names.rs:385-390 | for every text that writes a value, with any white space: the entries of the value |
| `ScalarText.GuidExactly` | src/metadata/guid.rs:65-86 | an identifier is eight, four, four, four and twelve hexadecimal digits with hyphens between them, put into lower case |
| `DbNames.EntryListsAreFlat` | src/metadata/db_names.rs:522-536 | a list that makes an entry has no entries inside, so post-order and pre-order coincide |
| `ConfigStream.ParseConfig` | src/metadata/config.rs:1111-1119 | for every text: the recursive walk's descriptors without exactly those of windows with an obscured self-reference, or the tree parser's diagnostic; the whole walk if and only if there is no such window, and otherwise fewer |
| `ConfigText.DescriptorExactly` | src/metadata/config.rs:1942-1959 | a descriptor starts at a place if and only if a list of a marker, a zero and an identifier stands there with a name behind it; it has that marker, identifier in lower case and name, the string two places on as comment if not empty, and the purpose |
| `ConfigText.CollectionExactly` | src/metadata/config.rs:41-75 | which of the ten collection identifiers, in any case, declares which purpose; no other text declares any |
| `ConfigText.DeclaredExactly` | src/metadata/config.rs:2076-2193 | a list has the purpose its first value declares, or else its second one |
| `ConfigText.DescriptorOfText` | src/metadata/config.rs:1111-1119 | the text of a list that begins with a described object gives that description first, field by field |
| `ConfigText.PurposeOfText` | src/metadata/config.rs:1111-1119 | the text of a list headed by a collection identifier gives the descriptor in it the purpose of the collection |
| `ConfigText.DescriptorsOfForm` | src/metadata/config.rs:1111-1119 | for every text that writes a value, with any white space: the descriptors of the value |
| `ConfigStream.ConfigParser.ParseBraces` | src/metadata/config.rs:1461-1806 | the one-pass list parser appends the descriptors of the streaming walk of its list, own ones before those of descendants |
| `ConfigStream.ListProgress.Record` | src/metadata/config.rs:1881-1940 | one more child: the window of four slides, a descriptor is projected when its name arrives, a purpose found late repairs what was emitted |
| `ConfigStream.ListProgress.Close` | src/metadata/config.rs:1748-1806 | the end of a list projects the last window, which has no comment |
| `ConfigStream.ProjectedVector.RepairAll` | src/metadata/config.rs:1881-1940 | replaces, in place, the purpose of every descriptor that has none or has one declared by a shallower list |
| `ConfigTree.RepairWalk` | src/metadata/config.rs:1881-1940 | repairing a subtree walked under an outer purpose gives the walk under the new purpose |
| `ConfigTree.KeepWalk` | src/metadata/config.rs:1881-1940 | a subtree walked under a purpose of its own list is left alone by the repair |
| `ConfigAgreement.WalksAgreeExactly` | src/metadata/config.rs:2076-2193 | the streaming walk and the recursive walk give the same descriptors if and only if no self-reference is headed by "Pattern" |
| `ConfigAgreement.WalkAgrees` | src/metadata/config.rs:2076-2193 | for every subtree, purpose and depth the streaming walk is the recursive one without the obscured windows: the same descriptors, or strictly fewer |
| `ConfigAgreement.WalksCanDiffer` | src/metadata/config.rs:1962-1980 | a concrete resource on which the two walks differ |
| `Tokenizing.TokenizeExpression` | src/access.rs:960-1047 | the token loop gives the specified tokens or the first lexical error |
| `ConditionText.TokensExactly` | src/access.rs:960-1047 | a text is read as a token list if and only if it spells it: the tokens in order, each as long as it can be, with white space and dots alone around them |
| `ConditionText.EvaluatesTextExactly` | src/access.rs:1262-1276 | a condition evaluates to b if and only if its text spells the tokens of a tree whose value is b |
| `ConditionText.TextRoundTrip` | src/access.rs:1262-1276 | any spelling of a tree with minimal parentheses evaluates to the tree's value or error |
| `ConditionText.SpacedIsSpelled` | src/access.rs:960-1047 | any tokens that can be written have a spelling: their writings with a space before each |
| `Tokenizing.TrimKeepsMeaning` | src/access.rs:313-320 | trimming a condition, as the tree parser does, never changes its value or error |
| `ExprParsing.ExprParser.Or` | src/access.rs:1065-1073 | the loop of a disjunction evaluates every right operand and leaves the cursor where the specification does |
| `ExprParsing.ExprParser.Comparison` | src/access.rs:1094-1120 | at most one comparison, by kind of value; references by the lower case of their whole text |
| `ExprParsing.ExprParser.Primary` | src/access.rs:1132-1221 | one operand: literal, parameter, parenthesis, value path or containment |
| `ExprParsing.EvaluateExpressionTokens` | src/access.rs:1262-1276 | the parser run consumes all tokens and gives the specified boolean or error |
| `ExpressionsExact.EvaluatesTree` | src/access.rs:1056-1221 | on the tokens of any correctly parenthesised tree the evaluator gives the tree's boolean value or its error |
| `ExpressionsExact.EvaluatesExactly` | src/access.rs:1056-1276 | a token list evaluates to b if and only if it is the writing of a tree whose value is b |
| `ExpressionMeaning.OrMeans` | src/access.rs:1065-1073 | a disjunction is true if and only if its left side is and the right one has a value, or the left side is false and the right one true; when it is false, and which error it is otherwise |
| `ExpressionMeaning.AndMeans` | src/access.rs:1075-1083 | a conjunction is true if and only if both sides are; false if and only if the left side is false and the right one has a value, or the left one true and the right one false; the error otherwise |
| `ExpressionMeaning.NotMeans` | src/access.rs:1085-1092 | a negation is true if and only if its operand is false |
| `ExpressionMeaning.CompareMeans` | src/access.rs:1094-1120 | texts, truth values and references are compared among themselves: equal texts, equal flags, two empty references or references with one lower case; different kinds are an error |
| `ExpressionMeaning.ConcatMeans` | src/access.rs:1122-1130 | two texts are joined, left before right; anything else is an error |
| `ExpressionMeaning.ContainsMeans` | src/access.rs:1190-1211 | whether the second text occurs in the first, letter by letter |
| `ExpressionMeaning.LeafMeans` | src/access.rs:1132-1260 | the value of a literal, a word, a name or a session parameter: texts, flags, the text for NULL, the empty reference for zero bytes and two hexadecimal digits for every byte otherwise; a missing one is an error |
| `ExpressionMeaning.ValueMeans` | src/access.rs:1158-1189 | a value path is the empty reference if its last part is one of its two names, and else its parts with dots between them |
| `Wording.KindExactly` | src/access.rs:1061-1211 | which word is which operator or constant, letter by letter in any case, in both languages |
| `Wording.LowerCharExactly` | src/access.rs:743-744 | every capital of the Latin alphabet and of the two Cyrillic ranges is put into its small letter, and nothing else changes |
| `ExpressionsExact.OpenValueAccepted` | src/access.rs:1164-1184 | the condition `value(x) = value(x`, with its last parenthesis missing, is accepted and true |
| `ExpressionsExact.ClosedExactly` | src/access.rs:1164-1184 | an accepted token list is that of a tree with every value closed if and only if it has as many closing parentheses as opening ones; at most one is missing |
| `ExpressionsExact.MinimalIsEnough` | src/access.rs:1056-1221 | parentheses only where an operand binds less tightly than its place are enough for every tree |
| `ExpressionsExact.MinimalKeepsMeaning` | src/access.rs:1140-1152 | adding or dropping parentheses changes neither value nor error |
| `ExpressionsExact.MinimalRoundTrip` | src/access.rs:1056-1276 | every tree written with minimal parentheses is evaluated to its own value or error |
| `Directives.EvaluatorAgreesWithTree` | src/access.rs:246-362 | if the pieces parse into a tree, the one-pass evaluator gives the value or error of that tree; if they do not, it fails |
| `Directives.EvaluatesExactly` | src/access.rs:816-931 | the evaluator gives a text if and only if the pieces parse into a tree that evaluates to the text |
| `Directives.NodesAgree` | src/access.rs:837-862 | from any piece on, emitting or not: the same text, end and error; a block not emitted fails exactly as the parser does |
| `Directives.CasesAgree` | src/access.rs:864-931 | the branches of a block: the first true one is taken, later conditions are not evaluated |
| `Directives.Chosen` | src/access.rs:893-895 | the body chosen is one of the block's bodies or its alternative |
| `DirectiveTrees.TreeRoundTrip` | src/access.rs:246-362 | the pieces of any tree parse back to the tree |
| `DirectiveTrees.EvaluatesTheTree` | src/access.rs:816-931 | evaluating the pieces of any tree gives what the tree evaluates to |
| `DirectiveTrees.ParsedIsProper` | src/access.rs:277-362 | every parsed block has a branch, starts at its first branch and has trimmed conditions |
| `DirectiveRuns.DirectiveEvaluator.ProcessPieces` | src/access.rs:839-862 | the cursor loop appends exactly the specified text and leaves the closing directive |
| `DirectiveRuns.DirectiveEvaluator.ProcessBlock` | src/access.rs:868-931 | the branch loop of a block, with conditions evaluated on live paths only |
| `DirectiveRuns.Evaluate` | src/access.rs:816-830 | the kept text of a piece list, or a stray closing directive |
| `DirectiveRuns.TemplateParser.Block` | src/access.rs:277-362 | the loop that gathers the branches of a block, with the offset of every diagnostic |
| `DirectiveRuns.Parse` | src/access.rs:228-244 | the tree of a piece list, or a stray closing directive at its offset |
| `DirectiveSplitting.SplitDirectives` | src/access.rs:771-812 | the split loop gives the specified pieces, and they tile the text |
| `DirectiveSplitting.SplitTiles` | src/access.rs:771-812 | pieces cover the text in order, each from its own offset; text pieces are not empty, not adjacent and hold no directive |
| `DirectiveSplitting.NextMarkIsFirst` | src/access.rs:776-804 | the scan finds the first hash that is not half of a pair and is followed by a directive's name |
| `Wording.MarkExactly` | src/access.rs:776-804 | the scan finds a directive if and only if it is the first that stands in the text: at a hash that is not half of a pair, before a whole word of the directive, which ends at the first character that is no letter or digit |
| `Wording.DirectiveExactly` | src/access.rs:742-753 | which name is which directive, letter by letter in any case, in both languages; no other name is one |
| `Wording.DirectiveNameExactly` | src/access.rs:960-1047 | which names after a hash stand for the table and which for the right |
| `DirectiveSplitting.EvaluateText` | src/access.rs:816-830 | splitting and evaluating a text together |
| `Names.KeyStandsForEquality` | src/names.rs:4-20 | two names compare equal if and only if their folded keys are the same |
| `PhysicalIndex.BuildIndex` | src/metadata/resolve.rs:2245-2268 | every key of the index leads to the first row that has it |
| `PhysicalIndex.TableForEntry` | src/metadata/resolve.rs:2277-2294 | the lookup equals the first-match scan of the three-way condition, for every schema, entry and kind |
| `PhysicalIndex.EarliestOfThree` | src/metadata/resolve.rs:2290-2294 | the least of three first rows is the first row with any of the three properties |
| `PhysicalIndex.ScanIsFirst` | src/metadata/resolve.rs:2313-2337 | the linear scan gives the first matching row |
| `PhysicalIndex.SchemaRow` | src/metadata/resolve.rs:2270-2276 | the row of a physical name, with or without its underscore, is the first one whose name compares equal |
| `TableSelection.Close` | src/metadata/resolve_selection.rs:126-144 | the repeated pass ends with the least set that holds the seeds and is closed under owners and extension bases |
| `TableSelection.AddFollowing` | src/metadata/resolve_selection.rs:128-140 | one pass adds what follows the set, and nothing outside any closed set |
| `TableSelection.SelectionIsUnique` | src/metadata/resolve_selection.rs:126-144 | the selection does not depend on the order of tables or on which schema declares them |
| `TableSelection.SelectingAgain` | src/metadata/resolve_selection.rs:198-211 | selecting from the projected schemas with the same seeds selects the same tables |
| `TableSelection.KeptExactly` | src/metadata/resolve_selection.rs:145-148 | for a closed selection a declared table is kept exactly when its own name is selected |
| `TableSelection.ProjectTables` | src/metadata/resolve_selection.rs:198-204 | keeps the selected tables in order |
| `TableSelection.ObjectTables` | src/metadata/resolve_selection.rs:113-125 | the seeds are exactly the tables of selected objects, by their own schema or else the base one |
| `TableSelection.SelectTables` | src/metadata/resolve_selection.rs:85-144 | the selection from existing settings storages and selected objects |
| `SelectionChains.SelectByChains` | src/metadata/resolve_selection.rs:85-144 | the selected keys are exactly those that a finite chain of owners and extension bases reaches from the key of an existing storage or of the table of a selected object |
| `SelectionChains.SelectionExactly` | src/metadata/resolve_selection.rs:126-144 | a selection holds exactly the keys such chains reach from its seeds |
| `SelectionChains.StepsStay` | src/metadata/resolve_selection.rs:128-140 | a declared table whose owner is selected, and one named by a selected base, an X and a number, is selected |
| `SelectionChains.KeyExactly` | src/metadata/resolve_selection.rs:94 | the key of a name: one leading underscore dropped and ASCII capitals made small |
| `SelectionChains.SeedsExactly` | src/metadata/resolve_selection.rs:95-125 | a seed is the key of a storage that the live catalogue names or a schema declares without its underscore, or of the table of a selected object, by its own schema or else the first one |
| `SelectionChains.TableExactly` | src/metadata/resolve.rs:2277-2337 | the table of an object is prefix and number, or an underscore and the name of the first table whose name is the alias, the alias with the number, or for an extra dimension whose own name is ExtDim with the number |
| `SelectionChains.SameNameExactly` | src/names.rs:4-20 | two names are equal if their letters are in any ASCII case, or, outside ASCII, if the table lowers them alike |
| `SelectionChains.ProjectionExactly` | src/metadata/resolve_selection.rs:145-148 | of the tables of a schema those are kept, in order, whose key or whose base's key is selected |
| `TableSelection.ExtensionBaseExact` | src/metadata/resolve.rs:2038-2052 | a name has a base if and only if it is the base, an X and digits, and the base ends in a digit |
| `Container.ReadDocument` | src/metadata/container.rs:57-109 | the block loop terminates on all bytes and gives the specified document or error |
| `Container.DocumentExactly` | src/metadata/container.rs:57-109 | a document is read if and only if a chain of different blocks, at most a million, holds it, its length is the one the first header declares and it fits the limit |
| `Container.HeldIsRead` | src/metadata/container.rs:57-109 | following a chain that holds the rest of a document collects it |
| `Container.ReadIsHeld` | src/metadata/container.rs:57-109 | what was collected is the concatenation of the payloads along a chain |
| `ContainerLayout.LayoutReadsBack` | src/metadata/container.rs:57-109 | a document laid out over blocks at different places is read back exactly |
| `ContainerLayout.EightDigits` | src/metadata/container.rs:78-85 | a number below two to the 32 in eight hexadecimal digits parses back |
| `ContainerEntries.ReadContainerEntry` | src/metadata/container.rs:14-43 | the directory loop gives the first document of the name, none, or the first fault |
| `ContainerEntries.FilesReadBack` | src/metadata/container.rs:14-43 | from a container of files, a name gives the content of its first file, or none |
| `ContainerEntries.NameRoundTrip` | src/metadata/container.rs:45-55 | a name without zero units, stored in little-endian UTF-16 and ended by zero, is read back |
| `ContainerBytes.HexExactly` | src/metadata/container.rs:78-85 | a number is hexadecimal digits in either case by place value, perhaps after a plus |
| `ContainerBytes.HeaderBytesRead` | src/metadata/container.rs:71-86 | 31 bytes of a line end, three numbers of eight digits with spaces and a line end are read as the numbers |
| `ContainerBytes.OneFileReads` | src/metadata/container.rs:14-109 | a container written byte by byte, with sixteen bytes before the contents, records of twelve bytes and twenty bytes before the name, gives its file by the name and none by another |
| `ContainerBytes.Utf16Exactly` | src/metadata/container.rs:45-55 | a name is accepted if and only if a low surrogate follows every high one and nothing else |
| `Lexing.TokensTile` | src/lexer.rs:711-713 | tokens are non-empty, in order, equal to their spans, at the right line and column, with white space alone between them |
| `ByteText.TilesSpanBytes` | src/lexer.rs:664-674 | the span of every token, in bytes, starts and ends at a character boundary and holds the bytes of its lexeme |
| `Lexing.TokensStandAlone` | src/lexer.rs:488-529 | a lexeme scanned by itself is one token of the same kind and the whole length |
| `Lexing.GotMarks` | src/lexer.rs:488-529 | a token or a diagnostic stands at the first place that is not white space |
| `Lexing.UncoveredIsSpace` | src/lexer.rs:711-713 | a place no token covers is white space |
| `Lexing.TilesAssemble` | src/lexer.rs:711-713 | white space and lexemes in order make up the text |
| `LexerRuns.Tokenize` | src/lexer.rs:711-713 | the collected tokens or the first diagnostic; tokens tile the text |
| `Lexemes.LexemesExactly` | src/lexer.rs:488-638 | a text is one token of a kind if and only if it is written as one: names, numbers, binary numbers, parameters, strings, comments, operators and signs, character by character |
| `Lexemes.TokensAreLexemes` | src/lexer.rs:711-713 | every token of a text is written as its kind is |
| `LexerRuns.Lexer.Next` | src/lexer.rs:686-703 | one step of the iterator, and nothing more after the end or a fault |
| `LexerRuns.Lexer.ScanKind` | src/lexer.rs:488-529 | the kind and the end of the token at the position, with line and column kept up to date |
| `LexerRuns.Lexer.Advance` | src/lexer.rs:639-650 | one character forward; line and column stay the newline and character counts |
| `ContentKeys.KeyRoundTrip` | src/metadata/extension.rs:371-387 | decoding the Base64 of any key gives the key |
| `ContentKeys.ReadTextIsStandard` | src/metadata/extension.rs:739-757 | an accepted text is the standard text of its key but for the two bits below the last byte |
| `KeyText.Base64Exactly` | src/metadata/extension.rs:371-387 | the text of bytes is that of section 4 of RFC 4648: letters of the alphabet for each six bits of three bytes, the first byte highest, and equals signs in a short last group |
| `KeyText.DecodedExactly` | src/metadata/extension.rs:739-757 | a text is read as a key if and only if it is 28 characters, the text of the key but for the two spare bits of its last letter |
| `ContentKeys.AsBase64` | src/metadata/extension.rs:371-387 | the three-byte chunk loop gives the standard text |
| `ContentKeys.DecodeContentKey` | src/metadata/extension.rs:739-757 | the truncating 32-bit accumulator gives out exactly the whole bytes of the sextets |
| `StagedDescriptors.AllOrNothing` | src/metadata/legacy_data_processor.rs:44-86 | a collection is written if and only if every row is sound; then ids are distinct, in row order, each naming one descriptor, and only the named descriptors change; otherwise nothing does |
| `StagedDescriptors.StagedExactly` | src/metadata/legacy_data_processor.rs:44-80 | the row-by-row checks accept exactly the collections whose rows read and name different single descriptors |
| `StagedDescriptors.ReadAttributes` | src/metadata/legacy_data_processor.rs:44-86 | validation first and then the commit loop, whose lookup always succeeds |
| `StagedSections.SectionsAllOrNothing` | src/metadata/legacy_data_processor.rs:88-125 | sections are written if and only if every section row is sound; then their ids are distinct, in row order, each naming one descriptor, which gets the fields of its own collection, and beside these only declarations of descriptors that a row of a section names change; otherwise nothing does |
| `StagedSections.ReadSections` | src/metadata/legacy_data_processor.rs:88-125 | sections checked whole, then written one by one with their attributes, leave what the specification leaves |
| `StagedSections.EachSectionGetsItsFields` | src/metadata/legacy_data_processor.rs:117-124 | every section ends with the field list its own collection gives, whatever the others wrote, and the last section to declare a descriptor wins |
| `StagedDescriptors.EachRowIsWritten` | src/metadata/legacy_data_processor.rs:79-85 | a named descriptor carries exactly its row's declarations |
| `StagedDescriptors.CommitKeepsNames` | src/metadata/legacy_data_processor.rs:80-81 | the descriptor a checked row names is still there when its turn comes |
| `StagedSections.ProjectProcessor` | src/metadata/legacy_data_processor.rs:127-151 | an old data processor with all the guards of its class list: attributes, then sections, then the three writes to its own descriptor |
| `StagedSections.WholeForm` | src/metadata/legacy_data_processor.rs:127-151 | a form that describes the resource leaves its first descriptor with the attribute list, a section list the attributes do not affect, and the object type; no other processor data change |
| `FormText.IdentityExactly` | src/metadata/legacy_data_processor.rs:15-40 | an identity is the list of seven values written out: a self-reference that is not nil, a name, one Russian synonym, an empty comment |
| `FormText.AttributeExactly` | src/metadata/legacy_data_processor.rs:49-69 | an attribute is the form 27 of 23 values with identity and types, and says them |
| `FormText.ProcessorRowExactly` | src/metadata/legacy_data_processor.rs:51-76 | the row of a processor written out around an attribute that has a type |
| `FormText.CharacteristicRowExactly` | src/metadata/legacy_news_characteristic.rs:36-66 | the row of a characteristic written out around an attribute |
| `FormText.WrittenExactly` | src/metadata/legacy_data_processor.rs:79-84 | a row leaves its types, its filling value and whether it fills, from their places in the row |
| `FormText.SectionExactly` | src/metadata/legacy_data_processor.rs:91-115 | the row of a section written out: the form 11, four identifiers, the identity |
| `FormText.ProcessorExactly` | src/metadata/legacy_data_processor.rs:127-143 | the class list of a processor written out: the form 16, the identity of the resource, six identifiers |
| `FormText.CollectionExactly` | src/metadata/runtime_metadata/values.rs:175-194 | a collection is the only list headed by its identifier, with the number of its rows behind it |
| `FormText.SectionRowsExactly` | src/metadata/legacy_data_processor.rs:119 | the attributes of a section are the rows of its own collection |
| `FormText.ObjectTypeExactly` | src/metadata/legacy_data_processor.rs:149 | the object type is an identifier that is not nil |
| `StagedDescriptors.CharacteristicAttributes` | src/metadata/legacy_news_characteristic.rs:33-77 | the same staged commit over the rows of the old characteristic form |
| `Recasing.CanonicalIsIdempotent` | src/metadata/normalize.rs:19-119 | recasing is idempotent, keeps the length and changes ASCII case alone |
| `Recasing.LongestWordChosen` | src/metadata/normalize.rs:14-119 | the word chosen at a place is the longest of the forty that match there |
| `Recasing.RecaseIdentifier` | src/metadata/normalize.rs:19-119 | the one-pass loop gives the canonical spelling |
| `ColumnSpelling.CanonicalExactly` | src/metadata/normalize.rs:19-119 | the canonical spelling of every name, step by step: the longest word that stands there, and where it may stand; a lone letter between underscores in capital; every other character as it is |
| `ColumnNames.NamesAreRestored` | src/metadata/normalize.rs:19-119 | a name written with known words, numbers, member letters and reference marks is restored from any spelling of it |
| `ColumnNames.ObjectWords` | src/metadata/normalize.rs:20-61 | the words for kinds of objects |
| `ColumnNames.RegisterWords` | src/metadata/normalize.rs:20-61 | the words for registers and parts of tables |
| `ColumnNames.StandardWords` | src/metadata/normalize.rs:20-61 | the words for standard columns |
| `ColumnNames.MemberWords` | src/metadata/normalize.rs:20-61 | the words for members of compound columns |
| `ColumnNames.FortyWords` | src/metadata/normalize.rs:20-61 | there are no other words |
| `LogicalFields.FieldsPartition` | src/metadata/normalize.rs:124-147 | distinct names in the order of first appearance, each with its columns in order, every column in the group of its name |
| `LogicalFields.MembersArePartition` | src/metadata/normalize.rs:124-147 | a column stands in the group of its name as often as in the input, and in no other group |
| `LogicalFields.CollapseLogicalFields` | src/metadata/normalize.rs:124-147 | the one-pass grouping and the draining of the map give that partition |
| `ColumnSpelling.LogicalNameExactly` | src/metadata/normalize.rs:149-206 | the logical name of every column: its longest mark and its underscore taken off, and "Type" if nothing is left |
| `ColumnNames.MembersShareName` | src/metadata/normalize.rs:149-206 | a numbered column, its compound members and its reference columns have one logical name |
| `ColumnNames.BareMembersAreType` | src/metadata/normalize.rs:149-160 | a member with no column before it belongs to the field "Type" |

## Left out

- Database sessions, networking, the command line, progress reports, fixed SQL text and the query compiler: input and output around the modelled core.
- Allocation: growing a vector never fails in the model, and capacity hints are not modelled.
- Byte offsets of text: offsets of parsers and lexer count characters; `Utf8` and `ByteText` carry the string and atom scanners and the spans of tokens over to bytes, the trimming of an atom stays on characters. A leading byte order mark and invalid UTF-8 are not modelled, and a line of the lexer counts characters as the source does.
- Diagnostics: their kinds and positions are modelled, their wording is not.
- Unicode tables: alphabetic and alphanumeric characters and the lower case of names are parameters; white space is the Unicode property written out. `Tokenizing.ProperTable` asks of the tables that no white space is a letter or digit, `Names.AgreesOnAscii` that they agree with ASCII on ASCII; the Unicode tables do both. `ConditionText.StandardTable` asks besides that no mark of the expressions is a letter or digit. The lower case by which references are compared is a parameter too (`DirectiveTokens.Scope`). `DirectiveTokens.Lower` covers ASCII and Cyrillic letters, the only ones in the fixed words it looks up; no other letter has one of theirs as its lower case.
- Depth limits: the limit on nesting of serialized text is modelled as a diagnostic, the limit of eight levels of template expansion is not.
- HuffmanTable.Build: takes at most 65535 lengths, because the counters of the source are 16-bit and its callers pass at most 320.
- Position-measured settings of Config resources (catalogue slots, balance flags, charts of accounts, separation, reference types, predefined values, criteria) and the trackers that read them; synonyms and the types in lists headed by "Pattern".
- The field and separator indexes of DBNames and merging them (`extend_from`, `select_entries`): only the parsed entries are modelled.
- Template expansion, references inside text pieces, comments, the substitution of current names and the split of an expanded restriction into its parts: a text piece is kept whole.
- `PhysicalIndex.Kind` knows a prefix, a service kind or the extra dimension; the table of all kinds and aliases is data.
- The projections of names, columns and field numbers in the table selection: the selected set and the projection of schemas are modelled.
- The readers of declared types and filling values in the old metadata forms are parameters; descriptors carry the fields these forms write, an identifier and a name.
- The index of logical names with ambiguity marks (`insert_slot`), owners of fields, and the comparison of declared and live indexes.
- Keywords of the lexer are a parameter: a spelling either has a keyword number or is an identifier.
- Vectors are class fields of sequence type; a slice of descriptors is an array. The tree parser of serialized values is a function, used as the reference for the one-pass parsers.
