# scan and scan_mac, modelled in Dafny

`scan` reads values from standard input one line at a time: a byte cursor
(`Stdin`) with one byte of pushback that ends at the first newline, an
incremental UTF-8 decoder, and a `Scanner` whose primitives read integers
in four radixes (with a sign and 64-bit wrap-around), words, lines, runs of
whitespace and literal text. `scan_mac` is the `scanln!` syntax extension:
its `Parser` lexes a format string such as `"{u32} {s}"` into
offset-tagged tokens and compiles those into the list of `Arg`s the
generated reader runs, with a character iterator that can look ahead
(`PeekN`) and a token cursor (`Stream`).

The project has one module per source file:

- `Wrappers`, `Bytes` (wrappers.dfy): Option, Result, bytes and the 64-bit casts.
- `Utf8` (utf8.dfy): the decoder, as a state-step function `Step` and the class `Decoder`.
- `Input` (stdin.dfy): the class `Stdin`, reading from a byte sequence.
- `Scan` (scanner.dfy): the reading functions on byte sequences and the class `Scanner`.
- `ScanFacts` (scan_facts.dfy): round trips and worked examples of the readers.
- `FormatUtil` (format_util.dfy): the classes `PeekN` and `Stream`, and `Token`.
- `Format` (format_parser.dfy): the specification functions `Lex`, `Placeholder`,
  `ParseFrom` and `Compile`, and the class `Parser` whose methods are proved against them.
- `FormatFacts` (format_facts.dfy): what every compiled `Arg` list looks like,
  the placeholder name table, and worked examples.

Every state-changing operation of the source is a method of a class with
the source's fields. Each method's `ensures` ties its result and new state
to a function of the old state: `Scanner` methods use the bytes ahead on
the line (`View().Ahead()`), `Parser.Tokenize` uses `Lex`, and
`Parser.Parse` uses `Compile`. Lemmas state what those functions promise.

Some behaviours of the code are worth knowing before reading the contracts:

- A leading `0` does not select octal: `017` reads as decimal 17
  (`LeadingZeroExample`). This agrees with the comment on `classify`
  (scan/src/lib.rs:151-152), which speaks of a `0` consumed before a decimal.
- Escaped braces join the neighbouring literal text, and a blank run is its
  own `Whitespace` arg: `{{literal}} {u8}` compiles to
  `[Lit("{literal}"), Whitespace, Int(U8)]` (`LiteralPatternExample`; `EscapesExample` for `{{a}}`).
- `literal` is documented (scan/src/lib.rs:262-264) to answer `Some(())` only
  when what it read coincides with `lit`. The code also answers `Some(())`
  when the line ends before `lit` is complete (`Scanner.Literal`, `LiteralAtEndOfLine`).
- The comment on `word` (scan/src/lib.rs:215-216) says that invalid UTF-8
  sequences are replaced by U+FFFD, which leaves valid ones intact. But the decoder treats a lead byte of width n as expecting n continuation
  bytes, and it answers REPLACEMENT for the lead byte itself. So no
  well-formed multi-byte character of any width comes through intact. A lone
  such character at the end of the input reads as two REPLACEMENTs
  (`MultiByteCharIsReplaced`). Inside text the outcome depends on what
  follows: a further continuation byte is taken into the pending sequence,
  so C3 A9 80 reads as REPLACEMENT, U+3A40 (`ContinuedCharExample`).

## Model

| member | source | states |
|---|---|---|
| Bytes.AsI64 | scan/src/lib.rs:188 | `v as i64` reinterprets a `u64`: the same value below 2^63, that value minus 2^64 above |
| Bytes.WrapI64 | scan/src/lib.rs:188 | an `i64` product wraps modulo 2^64 into the `i64` range, leaving in-range values alone |
| Utf8.CharWidth | scan/src/utf8.rs:33-39 | `utf8_char_width`: at most 4; 1 exactly for ASCII; 0 for every continuation byte |
| Utf8.FromU32 | scan/src/utf8.rs:46-49 | `char::from_u32`: a character with exactly that value, and one whenever a character has that value |
| Utf8.Step | scan/src/utf8.rs:18-57 | `push` answers a character second exactly for a byte that is no continuation byte; for such a byte, it answers first exactly when a sequence was pending; and every push emits something or leaves a sequence pending |
| Utf8.StepBounded | scan/src/utf8.rs:18-57 | every push keeps at most four continuation bytes pending and keeps `cur` inside 32 bits, so `cur << 6` loses no bit |
| Utf8.AsciiStep | scan/src/utf8.rs:19-25 | an ASCII byte is passed through as itself, after one REPLACEMENT when a sequence was pending, and clears the pending count |
| Utf8.LeadStep | scan/src/utf8.rs:26-40 | a byte from 0xC0 up answers REPLACEMENT second, REPLACEMENT first exactly when a sequence was pending, and leaves `utf8_char_width(b)` bytes expected with the lead byte's payload bits |
| Utf8.StrayContinuation | scan/src/utf8.rs:53-55 | a continuation byte with nothing pending yields one REPLACEMENT and changes nothing |
| Utf8.ContinuationStep | scan/src/utf8.rs:41-52 | a continuation byte shifts in six bits and counts down; at zero it yields the scalar value, or REPLACEMENT for a surrogate or a value past U+10FFFF |
| Utf8.AsciiRoundTrip | scan/src/utf8.rs:18-25 | a fresh decoder fed ASCII bytes returns them unchanged, one char per byte, and ends with nothing pending |
| Utf8.RunBounded | scan/src/utf8.rs:18-57 | every state a decoder reaches from a bounded state is bounded |
| Utf8.LeadThenContinuations | scan/src/utf8.rs:26-52 | a lead byte of width n and fewer than n continuation bytes emit one REPLACEMENT and leave n minus their number pending |
| Utf8.MultiByteCharIsReplaced | scan/src/utf8.rs:26-52 | every well-formed character of two to four bytes decodes, with the final flush, to two REPLACEMENTs |
| Utf8.ContinuedCharExample | scan/src/utf8.rs:26-52 | C3 A9 80 decodes to REPLACEMENT then U+3A40: the byte after a complete character is taken as one more continuation |
| Utf8.Decoder.constructor | scan/src/utf8.rs:11-16 | a new decoder has `cur` = 0 and `rem` = 0 |
| Utf8.Decoder.Push | scan/src/utf8.rs:18-57 | the new fields and both outputs are those of the step function, and the bounds invariant holds |
| Utf8.Decoder.Pending | scan/src/utf8.rs:59-61 | true exactly when continuation bytes are still expected |
| Input.LineEnd | scan/src/stdin.rs:28-32 | the first newline at or after a position, or the end of the input |
| Input.LineEndFirst | scan/src/stdin.rs:28-32 | no byte before that point is a newline |
| Input.LineEndFrom | scan/src/stdin.rs:28-32 | starting later on the same line finds the same newline |
| Input.Stdin.constructor | scan/src/stdin.rs:10-12 | a new cursor is not done, has an empty pushback slot, and will deliver the input up to its first newline |
| Input.Stdin.Next | scan/src/stdin.rs:14-34 | fails for good once done; otherwise hands out the pushed byte without reading; otherwise reads one byte, failing at the end of input, and failing and becoming done on a newline |
| Input.Stdin.Push | scan/src/stdin.rs:36-42 | fills the slot only when it is empty, so the byte is delivered next; a full slot is left alone |
| Scan.IsWhitespace | scan/src/lib.rs:298-304 | `is_whitespace` holds exactly for SPACE and for HT, LF, VT, FF and CR (9 to 13) |
| Scan.DigitValue | scan/src/lib.rs:81-116 | the digit patterns of each radix, hexadecimal in both cases; a digit is below its radix |
| Scan.DigitRun | scan/src/lib.rs:44-57 | the number of leading digits: all of them digits, and the byte after them none |
| Scan.DigitRunUnique | scan/src/lib.rs:44-57 | that characterisation determines the run length |
| Scan.AccumulateWraps | scan/src/lib.rs:50 | the `u64` accumulator `res * base + d` equals the value of the digits modulo 2^64 |
| Scan.Classification | scan/src/lib.rs:153-171 | `classify` takes at most two bytes: none unless the first is `0`; two exactly for a radix other than decimal; and one exactly when it reports a bare `0` |
| Scan.SignOf | scan/src/lib.rs:174-183 | `sign` answers 1 or -1 and takes at most one byte, never more than are ahead |
| Scan.SignOfTakes | scan/src/lib.rs:174-183 | `sign` takes one byte exactly when that byte is `+` or `-`, and answers -1 exactly for `-` |
| Scan.UnsignedValue | scan/src/lib.rs:144-149 | what `unsigned_integer` reads never takes more bytes than are ahead |
| Scan.SignedValue | scan/src/lib.rs:186-189 | what `signed_integer` reads never takes more bytes than are ahead |
| Scan.WordLength | scan/src/lib.rs:217-247 | a word is the longest prefix without whitespace; the byte after it is whitespace |
| Scan.WordLengthUnique | scan/src/lib.rs:217-247 | that characterisation determines the word length |
| Scan.WordStop | scan/src/lib.rs:226-229 | a word read up to a whitespace byte or the end of the line has been read whole |
| Scan.WhitespaceLength | scan/src/lib.rs:250-258 | the longest whitespace prefix; the byte after it is not whitespace |
| Scan.WhitespaceLengthUnique | scan/src/lib.rs:250-258 | that characterisation determines its length |
| Scan.Matched | scan/src/lib.rs:265-277 | the longest common prefix of the literal and the bytes ahead: equal up to it, different at it |
| Scan.MatchedUnique | scan/src/lib.rs:265-277 | that characterisation determines the matched length |
| Scan.TakeAhead | scan/src/lib.rs:25-36 | after taking k bytes, what is ahead is the rest of what was ahead, or nothing once a read failed at the end of the line |
| Scan.TakeTwice | scan/src/lib.rs:186-189 | two readers in a row take what one reader taking both parts would |
| Scan.UnsignedSteps | scan/src/lib.rs:144-171 | `classify` followed by `digits` reads and takes exactly what `UnsignedValue` says |
| Scan.SignedSteps | scan/src/lib.rs:174-189 | `sign` followed by `unsigned_integer` reads and takes exactly what `SignedValue` says |
| Scan.Scanner.ViewIsStream | scan/src/lib.rs:20-23 | the scanner's position view agrees with the cursor: what is ahead is what `next()` will still return |
| Scan.Scanner.constructor | scan/src/lib.rs:13-18 | `stdin(drop_line)` starts at the first byte of the input with the line not ended |
| Scan.Scanner.Read | scan/src/lib.rs:25-36 | `get_or!` yields the next byte ahead (never a newline) or fails exactly at the end of the line, consuming the newline |
| Scan.Scanner.Unread | scan/src/lib.rs:54 | pushing back the byte just read puts it ahead again |
| Scan.Scanner.Digits | scan/src/lib.rs:38-69 | reads the longest run of digits of the radix and answers their value modulo 2^64, or None for no digit; the byte after the run is pushed back |
| Scan.Scanner.Classify | scan/src/lib.rs:153-171 | consumes a radix prefix, or a bare `0` it reports, and otherwise pushes the first byte back; the radix and flag are those of `Classification` |
| Scan.Scanner.UnsignedInteger | scan/src/lib.rs:144-149 | answers and takes what `UnsignedValue` of the bytes ahead says, so a bare `0` reads as 0 |
| Scan.Scanner.Sign | scan/src/lib.rs:174-183 | consumes an optional `+` or `-` and answers 1 or -1; any other byte is pushed back and the answer is 1 |
| Scan.Scanner.SignedInteger | scan/src/lib.rs:186-189 | answers and takes what `SignedValue` says: the sign times the unsigned value as `i64`, wrapping |
| Scan.Scanner.String | scan/src/lib.rs:222-247 | decodes the word (or the rest of the line) ahead, pushing back the whitespace byte that ended a word, with one REPLACEMENT for an unfinished sequence |
| Scan.Decode | scan/src/lib.rs:233-241 | one turn of the loop of `string` pushes the byte into the decoder and appends what it answers, so the text stays the decoding of every byte read so far |
| Scan.Scanner.Word | scan/src/lib.rs:217-219 | decodes exactly the longest whitespace-free prefix ahead |
| Scan.Scanner.Line | scan/src/lib.rs:280-282 | decodes the rest of the line and consumes the newline that ends it |
| Scan.Scanner.Whitespace | scan/src/lib.rs:250-258 | takes exactly the longest whitespace prefix ahead and pushes back the byte after it |
| Scan.Scanner.Literal | scan/src/lib.rs:265-277 | takes the longest common prefix of the literal and the bytes ahead; None on a mismatching byte, which is pushed back; Some(()) on a full match and when the line ends first |
| Scan.Scanner.Drop | scan/src/lib.rs:285-295 | with `drop_line`, the rest of the line and its newline are consumed; otherwise the cursor is untouched |
| ScanFacts.DecimalValue | scan/src/lib.rs:100-103 | the decimal digits of n denote n |
| ScanFacts.UnsignedRoundTrip | scan/src/lib.rs:144-149 | any number written in decimal and followed by whitespace or the end of the line reads back modulo 2^64, taking exactly its digits |
| ScanFacts.DigitsThenBlank | scan/src/lib.rs:144-171 | decimal digits without a leading zero, followed by a byte that is no digit or by nothing, read as their value modulo 2^64 and take exactly the digits |
| ScanFacts.ZeroThenBlank | scan/src/lib.rs:144-171 | a lone `0` followed by whitespace or by the end of the line reads as 0 and takes the one byte |
| ScanFacts.SignedRoundTrip | scan/src/lib.rs:186-189 | every `i64`, the most negative included, written with a minus sign when negative, reads back as itself |
| ScanFacts.NegativeRoundTrip | scan/src/lib.rs:174-189 | every negative `i64`, written with a minus sign, reads back as itself |
| ScanFacts.NegativeSigned | scan/src/lib.rs:174-189 | a minus sign before a magnitude m of at most 2^63 reads as -m and takes one byte more |
| ScanFacts.NegatedMagnitude | scan/src/lib.rs:188 | `-1 * (m as i64)` wraps to -m for every magnitude up to 2^63 |
| ScanFacts.WhitespaceIsNoDigit | scan/src/lib.rs:298-304 | no whitespace byte is a digit in any radix |
| ScanFacts.HexExample | scan/src/lib.rs:153-159 | `0x1A` reads as 26 and takes all four bytes |
| ScanFacts.OctalExample | scan/src/lib.rs:153-159 | `0o17` reads as 15 |
| ScanFacts.BinaryExample | scan/src/lib.rs:153-159 | `0B11` reads as 3: the prefix letter may be upper case |
| ScanFacts.LeadingZeroExample | scan/src/lib.rs:155-163 | `017` reads as decimal 17 |
| ScanFacts.BarePrefixExample | scan/src/lib.rs:144-149 | `0x` with no digit after it is no number, and both bytes are taken |
| ScanFacts.BareSignExample | scan/src/lib.rs:174-189 | a sign with nothing after it is no number, and the sign is taken |
| ScanFacts.PlusSevenExample | scan/src/lib.rs:174-189 | `+7` reads as 7 and takes both bytes |
| ScanFacts.Binary101Example | scan/src/lib.rs:38-69 | `0b101` reads as 5: every digit after the prefix is accumulated |
| ScanFacts.EmptyExample | scan/src/lib.rs:144-171 | an empty line holds no number, and nothing is taken |
| ScanFacts.NonDigitExample | scan/src/lib.rs:144-171 | `x` is no number, and the byte is pushed back |
| ScanFacts.LiteralAtEndOfLine | scan/src/lib.rs:265-277 | when the line ends inside the literal, everything ahead matches, so `literal` answers Some(()) |
| ScanFacts.LiteralPresent | scan/src/lib.rs:265-277 | a literal that is all there matches exactly its own length |
| FormatUtil.PeekN.constructor | scan_mac/src/util.rs:10-16 | a new iterator will yield all items, numbered from 0, with nothing buffered |
| FormatUtil.PeekN.Peek | scan_mac/src/util.rs:18-29 | answers the item n places ahead, or None when fewer remain, and does not change what `next()` yields |
| FormatUtil.PeekN.Next | scan_mac/src/util.rs:33-45 | yields the next item paired with its index and advances by one, or None at the end |
| FormatUtil.FirstNonSpace | scan_mac/src/util.rs:72-82 | the first token at or after a position that is not a Space, all before it being Spaces |
| FormatUtil.SkipTarget | scan_mac/src/util.rs:72-88 | where `skip_spaces` leaves the cursor: on a token whenever there is one, and on a non-Space token at or after the start unless only Spaces remain |
| FormatUtil.SkipTargetLands | scan_mac/src/util.rs:72-88 | `skip_spaces` stops on the first non-Space token; with only Spaces left it stops on the last token |
| FormatUtil.SkipTargetPassesSpaces | scan_mac/src/util.rs:72-88 | `skip_spaces` passes over nothing but Spaces |
| FormatUtil.SkipTargetAt | scan_mac/src/util.rs:72-88 | `skip_spaces` stops on a non-Space token when only Spaces lie before it |
| FormatUtil.SkipTargetBounds | scan_mac/src/util.rs:72-88 | the cursor stays inside the token vector and moves back only from the end |
| FormatUtil.Stream.constructor | scan_mac/src/util.rs:65-70 | a new stream is at position 0 of its tokens |
| FormatUtil.Stream.Next | scan_mac/src/util.rs:92-99 | yields the token under the cursor and moves past it; at the end yields None without moving |
| FormatUtil.Stream.StepBack | scan_mac/src/util.rs:84-88 | moves back one token, never before the first |
| FormatUtil.Stream.SkipSpaces | scan_mac/src/util.rs:72-82 | leaves the cursor where `SkipTarget` says |
| Format.MessageDistinct | scan_mac/src/lib.rs:80-85 | `err` reports one of five messages, which are pairwise different, so a `CompileError`'s kind and its message determine each other |
| Format.Advance | scan_mac/src/lib.rs:96-142 | one turn of the tokenize loop always moves forward and stays inside the pattern |
| Format.FirstBad | scan_mac/src/lib.rs:106-109 | the first character that is neither blank nor printable ASCII, none before it |
| Format.LexFrom | scan_mac/src/lib.rs:90-145 | the tokenize loop from a position fails only with "expected Ascii character" at a rejected character ahead, and succeeds only when none lies ahead |
| Format.Lex | scan_mac/src/lib.rs:87-146 | `tokenize` fails only at a rejected character of the pattern, and succeeds only when the pattern has none |
| Format.LexFromFacts | scan_mac/src/lib.rs:90-145 | from a consistent state, lexing fails exactly when a rejected character lies ahead, at the first one; otherwise the tokens fit the pattern and runs are merged |
| Format.LexFacts | scan_mac/src/lib.rs:87-146 | `tokenize` fails exactly when the pattern has a character that is neither blank nor printable ASCII, reporting the first; otherwise each token covers the characters its kind says and no two neighbours are both Space or both Literal |
| Format.TilesAppend | scan_mac/src/lib.rs:113-134 | a token that starts where the covered part ends extends the covered part to its own end |
| Format.TilesSpace | scan_mac/src/lib.rs:96-103 | a blank after a trailing Space token lengthens that token's run |
| Format.TilesLiteral | scan_mac/src/lib.rs:136-142 | an ordinary character after a trailing Literal token lengthens that token by one |
| Format.AdvanceTiles | scan_mac/src/lib.rs:96-142 | one turn of the tokenize loop extends the covered part up to where lexing goes on |
| Format.LexFromTiles | scan_mac/src/lib.rs:90-143 | lexing from a covered prefix, when it succeeds, covers the whole pattern |
| Format.LexTiles | scan_mac/src/lib.rs:87-146 | the tokens of an accepted pattern cover all of it in order: the first starts at 0, each starts where the one before ends (one character, two for `{{` and `}}`, its length for a Literal, a run of blanks for a Space), and the last ends at the end |
| Format.GreedyAppend | scan_mac/src/lib.rs:115-119 | appending a token that is greedy keeps a greedy token list greedy |
| Format.AdvanceGreedy | scan_mac/src/lib.rs:115-134 | one turn of the tokenize loop emits a single `{` or `}` only where the same brace does not follow |
| Format.LexFromGreedy | scan_mac/src/lib.rs:90-145 | the tokenize loop keeps the token list greedy |
| Format.LexCanonical | scan_mac/src/lib.rs:87-146 | the tokens of an accepted pattern fit it, are merged, cover it in order and pair `{{` and `}}` greedily |
| Format.CanonicalToken | scan_mac/src/lib.rs:96-142 | in such a list every token fits, is greedy, spans to the next token's start and ends its run there |
| Format.SameToken | scan_mac/src/lib.rs:96-142 | two tokens that start at the same character and satisfy those clauses are the same token with the same end |
| Format.SameFrom | scan_mac/src/lib.rs:96-142 | two such lists that agree on where their kth token starts agree from k on |
| Format.CanonicalUnique | scan_mac/src/lib.rs:87-146 | a pattern has at most one such token list |
| Format.LexExactly | scan_mac/src/lib.rs:87-146 | `tokenize` yields a token list exactly when that list fits, is merged, covers the pattern and pairs braces greedily |
| Format.TagArg | scan_mac/src/lib.rs:191-206 | a known tag names an arg that is neither a Lit nor Whitespace |
| Format.Placeholder | scan_mac/src/lib.rs:184-214 | a placeholder that parses moves the cursor forward and stays inside the tokens; errors are never "Not ASCII" and lie at a token at or after the `{` (its arg and its `}`: `PlaceholderReads`, `PlaceholderOk`) |
| Format.ParseFrom | scan_mac/src/lib.rs:151-216 | the parse loop never reports a rejected character, and each other failure except "Unexpected EOF" lies at the offset of a token at or after the cursor |
| Format.Compile | scan_mac/src/lib.rs:148-219 | `parse` reports a rejected character exactly when `tokenize` fails, and each other failure except "Unexpected EOF" lies at the offset of one of the tokens |
| Format.PushLit | scan_mac/src/lib.rs:157-173 | `push_lit!` adds at most one arg, keeps every arg but the last, and leaves a Lit at the end whose text ends with the pushed text |
| Format.ConsumeStep | scan_mac/src/lib.rs:175-182 | parsing past a token other than `{` or `}` continues with that token's arg added |
| Format.PushSpace | scan_mac/src/lib.rs:96-103 | a blank joins a Space token just before it, or starts one |
| Format.PushLiteral | scan_mac/src/lib.rs:136-142 | an ordinary character lengthens a Literal token just before it, or starts one |
| Format.Parser.constructor | scan_mac/src/lib.rs:70-78 | a new parser holds the pattern, an empty stream and no args |
| Format.Parser.Tokenize | scan_mac/src/lib.rs:87-146 | fails exactly when `Lex` fails, with the same error and nothing changed; on success the stream is a new cursor at the start of `Lex`'s tokens and the args are unchanged |
| Format.Parser.PushLitArg | scan_mac/src/lib.rs:157-173 | `push_lit!` appends the text to a trailing Lit, or adds a new Lit |
| Format.Parser.ConsumeArg | scan_mac/src/lib.rs:175-182 | a Space adds Whitespace; a Literal, `{{`, `}}` and `:` push their text |
| Format.Parser.ParsePlaceholder | scan_mac/src/lib.rs:184-214 | reads the tag and the closing `}` exactly as `Placeholder` says: the same arg and final cursor, or the same error |
| Format.Parser.Parse | scan_mac/src/lib.rs:148-219 | returns exactly `Compile` of the pattern after the args held before |
| FormatFacts.PushLitShaped | scan_mac/src/lib.rs:157-173 | `push_lit!` of blank-free text keeps the args Shaped and leaves a Lit at the end |
| FormatFacts.PlaceholderFacts | scan_mac/src/lib.rs:184-214 | a placeholder yields an arg that is neither Lit nor Whitespace, and never reports "Unexpected EOF" |
| FormatFacts.PlaceholderArg | scan_mac/src/lib.rs:191-207 | the arg of a parsed placeholder is neither Lit nor Whitespace |
| FormatFacts.PlaceholderNoEof | scan_mac/src/lib.rs:185-213 | the step back of `skip_spaces` always leaves a token, so neither "Unexpected EOF" error can occur |
| FormatFacts.ParseShaped | scan_mac/src/lib.rs:151-216 | parsing keeps the args Shaped (no neighbouring Lits, no neighbouring Whitespaces, no blank inside a Lit) and never reports "Unexpected EOF" |
| FormatFacts.PlaceholderShaped | scan_mac/src/lib.rs:184-214 | the placeholder arm of the parse loop keeps the args Shaped and never reports "Unexpected EOF" |
| FormatFacts.TokenShaped | scan_mac/src/lib.rs:175-182 | the arms for the other tokens keep the args Shaped and never report "Unexpected EOF" |
| FormatFacts.ConsumeShaped | scan_mac/src/lib.rs:175-182 | a token outside a placeholder keeps the args Shaped; a trailing Whitespace comes from a Space |
| FormatFacts.TextPlain | scan_mac/src/lib.rs:177-182 | the text pushed for a token outside a placeholder has no blank |
| FormatFacts.CompileFacts | scan_mac/src/lib.rs:148-219 | `parse` reports a rejected character at its first offset, never reports "Unexpected EOF", and returns Shaped args |
| FormatFacts.PlaceholderReads | scan_mac/src/lib.rs:185-210 | `{`, Spaces, a Literal naming a type, Spaces, `}` parses to the arg that tag names, with the cursor just past the `}` |
| FormatFacts.PlaceholderOk | scan_mac/src/lib.rs:185-210 | conversely, a placeholder that parses ends just past a `}`, with only Spaces around one Literal whose tag names the arg |
| FormatFacts.PlaceholderErrors | scan_mac/src/lib.rs:184-214 | a failing placeholder fails at a token at or after its `{`: "Expected type" at a non-Literal, "Unknown type" at a Literal naming no type, "Unexpected token" at a token other than `}` |
| FormatFacts.ParseThrough | scan_mac/src/lib.rs:151-182 | parsing through tokens other than single braces never fails: it goes on from the next brace with some args |
| FormatFacts.FirstBraceDecides | scan_mac/src/lib.rs:151-216 | tokens other than braces never fail, so the first single brace ahead decides: a `}` fails with "Unexpected token" at its offset, and a failing placeholder passes its error on |
| FormatFacts.StrayCloseFails | scan_mac/src/lib.rs:148-183 | a `}` with no single brace before it makes `parse` fail with "Unexpected token" at that `}` |
| FormatFacts.FirstPlaceholderFails | scan_mac/src/lib.rs:148-214 | when the first placeholder fails, `parse` fails with its error, which lies at a token at or after that `{` |
| FormatFacts.TagArgNames | scan_mac/src/lib.rs:191-206 | every known tag names an arg whose name is that tag |
| FormatFacts.TagNameArgs | scan_mac/src/lib.rs:191-206 | every arg other than Lit and Whitespace has a name, and that name maps back to it |
| FormatFacts.SignedNames | scan_mac/src/lib.rs:253-258 | `IntType::signed` holds for an integer tag exactly when the tag starts with `i` |
| FormatFacts.BracesExample | scan_mac/src/lib.rs:116-129 | `{{{` lexes to `{{` at 0 and `{` at 2 |
| FormatFacts.OpenOnlyExample | scan_mac/src/lib.rs:184-188 | a lone `{` reports "Expected type" at offset 0 |
| FormatFacts.CloseOnlyExample | scan_mac/src/lib.rs:183 | a lone `}` reports "Unexpected token" at offset 0 |
| FormatFacts.PlaceholdersLex | scan_mac/src/lib.rs:87-146 | the tokens of `{u32} {s}` |
| FormatFacts.LexStep | scan_mac/src/lib.rs:90-145 | a turn of the tokenize loop on an accepted character continues from where it leaves off |
| FormatFacts.PlaceholdersLexHead | scan_mac/src/lib.rs:90-145 | lexing `{u32} {s}` reaches its blank with the tokens of `{u32}` |
| FormatFacts.PlaceholdersLexTail | scan_mac/src/lib.rs:90-145 | lexing `{u32} {s}` from its blank adds the tokens of ` {s}` |
| FormatFacts.PlaceholdersRead | scan_mac/src/lib.rs:184-214 | both placeholders of `{u32} {s}` read their type and their `}` |
| FormatFacts.PlaceholdersExample | scan_mac/src/lib.rs:148-219 | `{u32} {s}` compiles to `[Int(U32), Whitespace, Strin]` |
| FormatFacts.EscapesLex | scan_mac/src/lib.rs:116-142 | the tokens of `{{a}}` |
| FormatFacts.EscapesExample | scan_mac/src/lib.rs:148-219 | `{{a}}` compiles to the single Lit `{a}` |
| FormatFacts.LiteralPatternLex | scan_mac/src/lib.rs:87-146 | the tokens of `{{literal}} {u8}` |
| FormatFacts.LiteralPatternFits | scan_mac/src/lib.rs:96-142 | those tokens fit the pattern and pair braces greedily |
| FormatFacts.LiteralPatternTiles | scan_mac/src/lib.rs:96-142 | those tokens are merged and cover the pattern in order |
| FormatFacts.LiteralPatternPlaceholder | scan_mac/src/lib.rs:184-214 | the placeholder of `{{literal}} {u8}` reads `u8` and its `}` |
| FormatFacts.LiteralPatternTexts | scan_mac/src/lib.rs:177-181 | `{{`, `literal` and `}}` push the texts `{`, `literal` and `}` |
| FormatFacts.ConsumeTexts | scan_mac/src/lib.rs:157-182 | three tokens of text at the start of a pattern parse to one Lit of their joined texts |
| FormatFacts.ConsumeLit | scan_mac/src/lib.rs:157-165 | text pushed after a single Lit joins it |
| FormatFacts.PushLitOne | scan_mac/src/lib.rs:157-165 | `push_lit!` onto a single Lit appends to its text |
| FormatFacts.LiteralPatternTail | scan_mac/src/lib.rs:175-214 | after the escaped literal, the blank and the placeholder of `{{literal}} {u8}` add Whitespace and `Int(U8)` |
| FormatFacts.LiteralPatternExample | scan_mac/src/lib.rs:148-219 | `{{literal}} {u8}` compiles to `[Lit("{literal}"), Whitespace, Int(U8)]` |

## Left out

- Standard input is a byte sequence given to the constructor. A `libc::read` error (-1) is treated like the end of input, as the source's match does.
- The pushback slot is a field of each `Stdin` rather than a process-wide static. Two cursors sharing one slot is not modelled.
- `float`, the `*_inv` digit readers and `digits_inv` work on `f64`; floating point is not modelled.
- `IntType::map`, `expand_scanln`, the plugin registration and the code that `scanln!` generates are not modelled. They build syntax trees through the compiler's API.
- example/src/main.rs is not part of this model.
- `err` is modelled by the offset and the message it reports. The span arithmetic and the compiler diagnostic are not modelled.
- Format.Parser.Parse: the placeholder arm adds its arg after the closing `}` is checked, where the source adds it before. On an error the source discards the args, so the result is the same.
- `uint`/`usize` offsets and lengths are unbounded naturals. No pattern or token vector reaches their limits.
- Scan.Scanner.String: the `line` flag's newline test is kept, but it can never fire, because `Read` never yields a newline byte. So the contract does not depend on `line`.
- Format.Parser.Tokenize: a pattern is a sequence of characters and offsets are character indices. The source slices bytes, which agrees because every accepted character is ASCII.
