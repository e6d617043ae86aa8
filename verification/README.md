# Docker plugin library: a verified model

The library serves Docker plugins over a Unix-domain socket. A request arrives as bytes, an HTTP parser turns it
into callbacks, a connection collects URL, headers and body, a handler reads the JSON body and answers with JSON,
and the connection frames the answer as an HTTP response. This project models the layers that the library writes
itself and proves what they promise, for all inputs.

- **JSON** (`lib/src/picojson.h`). `json_reader.dfy` is the recursive-descent reader on an integer index, and
  `json_grammar.dfy` the accepted texts as parse trees. `json_completeness.dfy` and `json_soundness.dfy` show that
  they accept the same texts with the same values. `json_input.dfy`, `json_parse.dfy` and `json_text.dfy` are the
  stateful parser on its lazy one-byte cursor, refined to the index reader. `json_writer.dfy` is the serializer as
  functions and as the appending code, `json_layout.dfy` reads its output as documents of the grammar, and
  `json_theorems.dfy`, `json_errors.dfy`, `json_stems.dfy` and `json_utf8.dfy` hold the results;
  `json_tokens.dfy`, `json_spelling.dfy` and `json_written.dfy` state the format on literals. `utf8.dfy` and
  `bits.dfy` tie the shifts and masks of the encoder to RFC 3629.
- **HTTP** (`lib/src/http_server.h`, `lib/src/http_server.cpp`). `http_headers.dfy` is the header multimap,
  `http_response.dfy` the response writer, `http_client.dfy` a reference client after RFC 9112 (sections 2.1, 4, 5,
  6.3 and 7.1), and `http_framing.dfy` what that client reads from the writer.
- **Plugin** (`lib/src/plugin.cpp`). `plugin_spec.dfy` is one connection as a state machine over parser callbacks,
  `plugin_connection.dfy` the object with its fields and methods, `plugin_run.dfy` whole runs: fragments in,
  responses out, `plugin_urls.dfy` the URLs and `plugin_replies.dfy` the replies written out,
  `plugin_endpoint.dfy` one message through all layers, `plugin_loop.dfy` the event loop with its connections.
- **Event loop** (`lib/src/uds_server.cpp`). `uds_spec.dfy` is a tick as a function of the kernel's answers,
  `uds_invariant.dfy` what all ticks keep, `uds_stories.dfy` what happens to each connection in
  order, `uds_server.dfy` the objects that own descriptors, `uds_writes.dfy` several writes in a row.
- **Endpoint interface** (`lib/src/serialize.cpp`). `endpoint_wire.dfy` takes one message through both builders
  and the JSON layer, `endpoint_request.dfy` says which member of a text becomes which field.

`dafny verify dfyconfig.toml` checks the whole project.

## Where the code does something else than one would expect

The model follows the code in each of these places.

- The chunk loop of `send_data` never advances `data` (`lib/src/http_server.cpp:192-200`): each chunk starts
  again at the first byte. `HttpFraming.PayloadIsData` says exactly which data survives, and
  `HttpFraming.LongBodyIsGarbled` gives data that does not. Replies of the plugin itself are never chunked.
- Arrays spend the nesting budget and objects only check it (`lib/src/picojson.h:996-1018`), so objects may nest
  without limit; `JsonTheorems.NestingBound` is the exact bound. On every way out of a container its context is
  discarded, so the increments at the end of an object have no effect.
- The error text of the JSON parser counts one line too few when reading stops at a newline right after a
  backslash, because the cursor has not passed it (`lib/src/picojson.h:788-811`). `JsonStems.WrongLineExactly` says
  for which texts this happens, and `JsonErrors.EscapedNewline` gives one.
- A number that overflows a double makes the constructor of `value` throw (`lib/src/picojson.h:250-255`), so `parse`
  neither succeeds nor returns an error text: `JsonStems.ThrownExactly`. A request with such a body is answered 500
  with an empty error instead of 400: `PluginEndpoint.OverflowingBody`.
- The reading `convert_map` returns at once for the objects it is meant to read, and throws for everything else
  (`lib/src/serialize.cpp:41-42`): `EndpointWire.OptionsSurviveExactly` and, for a text that loses its option,
  `EndpointWire.LostOption`.
- `end()` leaves an empty reason phrase, while a new connection has "OK" (`lib/src/http_server.cpp:223`). No answer
  of the plugin shows it, since the status is set before each of them: `PluginRun.RequestRun`.
- A driver that throws an error with a status that is not three digits, or is 1xx, 204 or 304, breaks the framing
  of the connection: `PluginRun.ThrownStatusBreaks`. 0, which an error has when its status is not set, is one
  (`PluginRun.DefaultStatusBreaks`), and so is 204 (`PluginRun.NoContentBreaks`).
- A double with an integral value below 2^53 prints without a point and reads back as an integer
  (`lib/src/picojson.h:496`, `lib/src/picojson.h:909-913`): `JsonTheorems.RoundTrip` gives what each double reads as.

## Conventions

Bytes are integers 0 to 255. A JSON object is a strictly ascending sequence of members, which is what iterating
the `std::map` yields. `held` in a result of the reader says that the byte before the position could still be
un-got, which is what `consumed_` is for. Every theorem about bytes on a connection assumes that its sends succeed;
failing sends are modelled in `UdsServer.Connection.Write` and `UdsWrites`. The kernel and the HTTP request parser are parameters:
a tick carries the answers of select, accept and recv, and a request carries the fragments in which it arrives.
C-locale `tolower` is assumed for header names. A double is the token it was read from, and a printer, a parameter
of the serializer, gives what `to_str` prints for it.

Constructors, setters and single callbacks (the setters of `JsonParse.Context` and `HttpHeaders.HeaderSet`, and the
`On...` methods of `PluginConnection.Connection`, each tied to its step of the state machine) have no row below.

## Model

| member | source | states |
|---|---|---|
| `JsonTheorems.RoundTrip` | lib/src/picojson.h:480-523 | serialized text, compact or pretty, followed by any suffix (not a number byte after a bare compact number) is accepted exactly when the value's nesting is in budget; reading ends behind its last byte, before the pretty newline, with the value whose doubles are what their printed tokens read as; without doubles that is the same value |
| `JsonTheorems.PlainRoundTrip` | lib/src/picojson.h:581-644 | the same for a value without doubles, whatever prints doubles |
| `JsonTheorems.RereadTwice` | lib/src/picojson.h:493-509 | where printing keeps printed tokens, nothing changes any more after one round trip |
| `JsonTheorems.PrinterIrrelevant` | lib/src/picojson.h:581-644 | the text of a value without doubles does not depend on how doubles are printed |
| `JsonLayout.RereadIntegral` | lib/src/picojson.h:487-491 | reading back changes nothing in a value without doubles |
| `JsonTheorems.Canonical` | lib/src/picojson.h:566-650 | the value of every accepted text is valid, and its serialized text, in either layout, is accepted again; without doubles as the same value, which serializes to the same bytes |
| `JsonTheorems.SerializeInjective` | lib/src/picojson.h:566-572 | equal texts, in any mix of layouts and at any depth, come from values that are equal up to how their doubles print; without doubles, from equal values |
| `JsonTheorems.WrittenReads` | lib/src/picojson.h:581-644 | with any budget that a value fits in, its serialized text is accepted, read to its last byte and gives that value back (doubles as their printed tokens read) |
| `JsonTheorems.LayoutsAgree` | lib/src/picojson.h:574-644 | the compact and the pretty text of a value are accepted alike and read as the same value |
| `JsonTheorems.AcceptedExactly` | lib/src/picojson.h:876-928 | a text is accepted if and only if a document of the grammar starts it, whose numbers are int64s or doubles that do not overflow, and every container of it has fewer than 100 arrays around it; value and end position are then those of the document |
| `JsonTheorems.NestingBound` | lib/src/picojson.h:966-1027 | for a text that starts with a well-formed document without overflowing numbers: acceptance if and only if fewer than 100 arrays enclose each array and object (objects spend nothing), whatever the target held before |
| `JsonTheorems.ReadIsValid` | lib/src/picojson.h:876-928 | every value read has integers in int64 range, keys in strict map order at all levels, and nesting within the budget |
| `JsonTheorems.EvalValid` | lib/src/picojson.h:837-854 | the value a document denotes is valid, and nested no deeper than the document |
| `JsonTheorems.EscapeInverse` | lib/src/picojson.h:529-564 | reading inverts escaping for every byte string (NUL, 0x7f, 0x80 to 0xff included), stopping exactly at the closing quote; the escaped body has no control byte and no 0x7f |
| `JsonTheorems.CodepointExactly` | lib/src/picojson.h:738-777 | a \u escape is accepted if and only if it spells a scalar value, alone or as a high-low surrogate pair; it emits the one well-formed UTF-8 character of exactly that code point and is read to its end (the digits: `JsonSpelling.EscapeExactly`) |
| `JsonTheorems.EscapeIsScalar` | lib/src/picojson.h:757-775 | a well-formed escape yields exactly one character, that of the code point it spells |
| `JsonSpelling.EscapeExactly` | lib/src/picojson.h:717-777 | after a backslash and a u, reading succeeds if and only if digits of the literal alphabets 0-9a-f or 0-9A-F, in any mix, write a code point: one that is no surrogate in four digits, one of 0x10000 to 0x10FFFF as high and low surrogate; it gives the one character of that number and goes on behind its digits |
| `JsonSpelling.QuotedEscapeReads` | lib/src/picojson.h:779-818 | a text that is such an escape between quotes is accepted, read to its end, and is the string of that one character |
| `JsonSpelling.UpperCaseEscape` | lib/src/picojson.h:725-726 | a concrete text with an upper-case digit, and its two bytes |
| `Numerals.DigitsExactly` | lib/src/picojson.h:723-731 | a byte has a digit value if and only if it is in one of the two literal alphabets, and then its place there; every other byte has -1 |
| `JsonReader.FourHexExactly` | lib/src/picojson.h:717-736 | four bytes are read as the number whose hexadecimal digits they write, most significant first; otherwise reading fails and stops at the first byte that is no digit |
| `JsonTheorems.PairsCoverSupplementary` | lib/src/picojson.h:757-758 | surrogate pairs and the code points 0x10000 to 0x10FFFF correspond one to one |
| `JsonTheorems.ObjectIsFold` | lib/src/picojson.h:1019-1023 | reading members into the ordered map is a left fold of assignments into a plain map |
| `JsonTheorems.DuplicateKeys` | lib/src/picojson.h:1019-1023 | looking up a key finds the value of its last occurrence in the text (containers included) and nothing for a key that does not occur |
| `JsonTheorems.AssignKeepsLast` | lib/src/picojson.h:1019-1023 | in a fold of assignments the last one of a key wins |
| `JsonUtf8.ReadingPreservesUtf8` | lib/src/picojson.h:738-818 | from a well-formed UTF-8 text every string and key that is read is well-formed UTF-8 |
| `JsonUtf8.DocUtf8` | lib/src/picojson.h:876-928 | the same for a document: well-formed text, well-formed strings at every level |
| `JsonUtf8.BodyUtf8` | lib/src/picojson.h:779-818 | a string body that is well-formed UTF-8 has a well-formed value, whatever mix of raw bytes and escapes it is |
| `JsonStems.ThrownExactly` | lib/src/picojson.h:250-255 | the parser throws if and only if a document broken off at a number that is no int64 and overflows a double starts the text: what stands before the number is well-formed and within the nesting budget, and nothing after it matters |
| `JsonStems.OverflowingText` | lib/src/picojson.h:250-255 | a concrete text that makes the parser throw |
| `Numerals.LargePower` | lib/src/picojson.h:917-919 | 10^k for k from 317 on is at least 2^1024 - 2^970, where rounding to the nearest double becomes infinite |
| `JsonStems.WrongLineExactly` | lib/src/picojson.h:788-811 | the parser returns an error text that does not name the line on which reading stopped if and only if a well-formed document, broken off in a string at a backslash and a newline and within the nesting budget, starts the text; it then names the line of the backslash |
| `JsonStems.LineIsRight` | lib/src/picojson.h:1104-1120 | a text without a newline directly after a backslash gets the right line in every error text |
| `JsonStems.StemFails` | lib/src/picojson.h:876-928 | a document broken off at an escaped newline or at an overflowing number stops the reader right behind it, with an exception exactly in the second case |
| `JsonStems.ItemsFail` | lib/src/picojson.h:820-835 | the same inside an array, after any finished items |
| `JsonStems.MembersFail` | lib/src/picojson.h:837-854 | the same inside an object, in a key or in a value, after any finished members |
| `JsonStems.ValueStemAt` | lib/src/picojson.h:876-928 | conversely, a reader that throws or stops behind an escaped newline has read such a broken-off document |
| `JsonStems.ItemsStemAt` | lib/src/picojson.h:820-835 | the same for the items of an open array |
| `JsonStems.MembersStemAt` | lib/src/picojson.h:837-854 | the same for the members of an open object |
| `JsonErrors.ErrorReport` | lib/src/picojson.h:1104-1131 | unless the parser throws, the error text is empty exactly on success; on failure it names 1 plus the newlines before the position where reading stopped, unless that is right behind an escaped newline (then the line before), quotes the rest of the line, and the end position is behind that line |
| `JsonErrors.ErrorBytes` | lib/src/picojson.h:1104-1131 | on a failure that is no exception the error text is, byte for byte, `syntax error at line `, a decimal numeral without leading zeros, ` near: ` and the rest of the line without its control bytes; the numeral is 1 plus the newline bytes before the stopping position, one less exactly right behind an escaped newline; the end position is behind that line |
| `JsonErrors.FirstLineError` | lib/src/picojson.h:1104-1120 | the whole error text of a concrete text |
| `JsonErrors.NearIsRest` | lib/src/picojson.h:1110-1117 | the quoted rest holds, in order, exactly the bytes of the line from there on that are no control bytes |
| `JsonErrors.EscapedNewline` | lib/src/picojson.h:810-811 | a concrete text whose error line is off by one: for a quote, a backslash and a newline the error text, byte for byte, says line 1 |
| `JsonErrors.ValueStops` | lib/src/picojson.h:876-928 | reading a value that fails with a newline still un-gettable has failed at an escaped newline, and only then; success leaves a position that reading can go on from |
| `JsonErrors.StringStops` | lib/src/picojson.h:779-818 | the same for a string body |
| `JsonErrors.NearIsPrintable` | lib/src/picojson.h:1110-1117 | the quoted rest of the line holds no control byte |
| `JsonReader.JoinPair` | lib/src/picojson.h:757-758 | the shift, mask and or of the source equal 0x10000 + (hi - 0xD800) * 0x400 + (lo - 0xDC00), within 0x10000 to 0x10FFFF |
| `JsonGrammar.FitsMeansFewArrays` | lib/src/picojson.h:996-1018 | the budget test of the reader is the count of enclosing arrays: every container has fewer than the budget around it |
| `JsonValue.PutIsUpdate` | lib/src/picojson.h:1020-1021 | assignment to o[key] changes the map at that key and nowhere else |
| `JsonValue.PutAscending` | lib/src/picojson.h:1020-1021 | assignment keeps the keys in strict map order |
| `JsonValue.PutLast` | lib/src/picojson.h:1020-1021 | assigning a key above all others appends it |
| `JsonValue.FindInMap` | lib/src/picojson.h:462-467 | find agrees with the plain map, for present and absent keys |
| `JsonCompleteness.ReadDoc` | lib/src/picojson.h:876-928 | where a document of the grammar stands, reading succeeds exactly when it fits the budget, with its value and its end |
| `JsonCompleteness.ReadItemsDoc` | lib/src/picojson.h:820-835 | the same for the items of an array, in order |
| `JsonCompleteness.ReadMembersDoc` | lib/src/picojson.h:837-854 | the same for the members of an object, folded from the left |
| `JsonCompleteness.ReadNumber` | lib/src/picojson.h:897-922 | a number token that ends where number bytes end, and does not overflow, is read to its value |
| `JsonTokens.NumberRead` | lib/src/picojson.h:897-922 | a text of number bytes that starts as numbers do is read to its end as an int64 if and only if it is an optional sign and decimal digits that write a number of that range; as a double if and only if it is another numeral (digits with at most one point, optional exponent) below 2^1024 - 2^970; at or above that, and only then, the parser throws |
| `JsonTokens.DoubleTokenExactly` | lib/src/picojson.h:914-919 | the tokens taken for doubles are exactly: an optional sign, digits with at most one point among or around them, an optional e or E with an optional sign and digits |
| `JsonTokens.IntTokenExactly` | lib/src/picojson.h:908-913 | the tokens taken for integers are exactly an optional sign and decimal digits |
| `JsonTokens.NumberBytes` | lib/src/picojson.h:860-872 | the bytes of a number are those of a literal set |
| `JsonTokens.WhiteSpaceBytes` | lib/src/picojson.h:692 | white space is exactly space, tab, newline and carriage return |
| `JsonTokens.ShortEscapes` | lib/src/picojson.h:791-804 | the eight one-letter escapes and their meanings, as literal lists, and no others |
| `JsonTokens.MatchExactly` | lib/src/picojson.h:706-714 | a literal is matched exactly where it stands; otherwise reading stops at the first byte that differs |
| `JsonCompleteness.ScanBody` | lib/src/picojson.h:779-818 | every well-formed string body before a quote is read to its value |
| `JsonCompleteness.CodepointUnit` | lib/src/picojson.h:738-776 | four hex digits of a scalar value emit its encoding |
| `JsonCompleteness.CodepointPair` | lib/src/picojson.h:743-759 | a surrogate pair emits the encoding of the joined code point |
| `JsonSoundness.ValueIsAt` | lib/src/picojson.h:876-928 | whatever is read successfully is a document of the grammar standing at that position |
| `JsonSoundness.ItemsAreAt` | lib/src/picojson.h:820-835 | the same for the items of an array and its closing bracket |
| `JsonSoundness.MembersAreAt` | lib/src/picojson.h:837-854 | the same for the members of an object and its closing brace |
| `JsonSoundness.BodyIsAt` | lib/src/picojson.h:779-818 | a string that is read successfully is a sequence of well-formed chunks before a quote |
| `JsonSoundness.CodepointIsAt` | lib/src/picojson.h:738-777 | an accepted escape is a scalar \uXXXX or a high-low surrogate pair in the text |
| `JsonSoundness.NumberIsAt` | lib/src/picojson.h:856-874 | a number token is the maximal run of number bytes |
| `JsonInput.Input.Getc` | lib/src/picojson.h:661-674 | returns the byte at the abstract position and advances by one, or -1 at the end; the line number stays 1 plus the newlines before the cursor |
| `JsonInput.Input.Cur` | lib/src/picojson.h:678-685 | returns the abstract position, where the cursor then stands with nothing consumed |
| `JsonInput.Input.SkipWs` | lib/src/picojson.h:689-697 | refines skipping on an index, for every state of the lazy cursor |
| `JsonInput.Input.Expect` | lib/src/picojson.h:698-705 | refines the index version: answer, position and held byte |
| `JsonInput.Input.Match` | lib/src/picojson.h:706-714 | refines the index version: answer, position and held byte |
| `JsonParse.ParseQuadhex` | lib/src/picojson.h:717-736 | refines the index reader; the value returned is the number that the four bytes write in digits of the literal alphabets, and -1 is returned exactly when one of them is no digit, with the cursor at the first such byte |
| `JsonParse.ParseCodepoint` | lib/src/picojson.h:738-777 | refines the index reader; on failure nothing is appended |
| `JsonParse.ParseStringBody` | lib/src/picojson.h:779-818 | refines the index reader: answer, bytes collected so far (also on failure), position |
| `JsonParse.ParseNumber` | lib/src/picojson.h:856-874 | returns the maximal run of number bytes and gives back the byte after it |
| `JsonParse.ParseArrayItem` | lib/src/picojson.h:1003-1008 | appends the value read with a fresh context, also when reading it fails |
| `JsonParse.ParseArray` | lib/src/picojson.h:820-835 | refines the index reader: answer, partial or whole array, position |
| `JsonParse.ParseObjectItem` | lib/src/picojson.h:1019-1023 | assigns the value read, starting from what the key held, also when reading it fails |
| `JsonParse.ParseObject` | lib/src/picojson.h:837-854 | refines the index reader: answer, partial or whole object, position |
| `JsonParse.Parse` | lib/src/picojson.h:876-928 | the stateful parser agrees with the index reader for every input: answer or exception, value left in the target, position and held byte; it terminates by remaining input |
| `JsonParse.Context.ParseArrayStart` | lib/src/picojson.h:996-1002 | fails with nothing changed at budget 0, otherwise stores an empty array and spends one |
| `JsonParse.Context.ParseObjectStart` | lib/src/picojson.h:1013-1018 | fails with nothing changed at budget 0, otherwise stores an empty object and spends nothing |
| `JsonText.RestOfLine` | lib/src/picojson.h:1110-1117 | collects the printable bytes up to the end of the line |
| `JsonText.Parse` | lib/src/picojson.h:1104-1131 | it throws, or value, error text and end position are those of the index reader, and the error is empty exactly on success; the value left behind is that of the index reader in either case |
| `JsonWriter.SerializeTo` | lib/src/picojson.h:581-644 | appends exactly the text of the value at that indentation |
| `JsonWriter.SerializeArray` | lib/src/picojson.h:586-607 | appends the brackets, the items and the line breaks of the layout |
| `JsonWriter.SerializeItems` | lib/src/picojson.h:591-599 | appends all items, each after its comma and line break |
| `JsonWriter.SerializeObject` | lib/src/picojson.h:609-636 | appends the braces, the members and the line breaks of the layout |
| `JsonWriter.SerializeMembers` | lib/src/picojson.h:614-627 | appends all members in map order |
| `JsonWriter.SerializeStr` | lib/src/picojson.h:559-564 | appends the quoted string with every byte escaped |
| `JsonWriter.Indent` | lib/src/picojson.h:574-579 | appends a newline and two spaces a level |
| `JsonWritten.ValueText` | lib/src/picojson.h:566-644 | the text of every kind of value, in either layout, on literals: null, true, false, quoted strings, brackets and braces around the items with a comma between two of them, a newline and two spaces a level in front of each and before the closing bracket, a colon (and a space in pretty text) after a key, a newline at the end of a pretty text |
| `JsonWritten.EscapedByte` | lib/src/picojson.h:531-556 | the escapes on literals: eight letters, four lower-case digits for other control bytes and 0x7f, every other byte as it is |
| `JsonWritten.IntegerWritten` | lib/src/picojson.h:487-491 | an integer is written as decimal digits that write its magnitude, without leading zeros, behind a minus sign exactly when it is negative |
| `Bytes.LexExactly` | lib/src/picojson.h:462-467 | the order of the keys: a proper prefix comes first, else the byte at the first difference decides |
| `JsonLayout.EscapeChunkInverts` | lib/src/picojson.h:531-556 | the escape of a byte is a well-formed chunk that stands for that byte and has no control byte |
| `JsonLayout.ChunksInvert` | lib/src/picojson.h:559-564 | the escaped body of a string is a string body of the grammar whose value is the string |
| `JsonLayout.LayoutText` | lib/src/picojson.h:581-644 | the serializer's text is the text of a document of the grammar, in both layouts |
| `JsonLayout.LayoutEval` | lib/src/picojson.h:581-644 | that document is well-formed and denotes the value, its doubles as their printed tokens read |
| `JsonLayout.LayoutFits` | lib/src/picojson.h:996-1018 | and is nested exactly as deep as the value |
| `JsonLayout.PrettyIsSpacedCompact` | lib/src/picojson.h:574-644 | the pretty layout without its white space is the compact one |
| `JsonLayout.PrintedToken` | lib/src/picojson.h:487-491 | a printed int64 is a number token that reads as the same int64 |
| `Numerals.PrintIntReads` | lib/src/picojson.h:487-491 | the decimal text of an integer reads as that integer, negative ones included |
| `Numerals.FromToBase` | lib/src/http_server.cpp:195 | the numeral of a number in base 2 to 16 reads as that number |
| `Utf8.EncodeCorrect` | lib/src/picojson.h:760-775 | the bytes pushed for a scalar value are one well-formed character of RFC 3629 that denotes it |
| `Utf8.EncodeUnique` | lib/src/picojson.h:760-775 | conversely every well-formed character is what is pushed for its code point |
| `Utf8.EncodeArithmetic` | lib/src/picojson.h:760-775 | the shifts, masks and ors give the sums of the bit distribution of RFC 3629 section 3 |
| `HttpHeaders.StrictWeakOrder` | lib/src/http_server.h:8-13 | the comparison is irreflexive and transitive, and incomparability is transitive |
| `HttpHeaders.EquivalenceIsSame` | lib/src/http_server.h:8-13 | two keys are equivalent if and only if their lower-case forms are equal; never both orders |
| `HttpHeaders.LowerLetters` | lib/src/http_server.cpp:31 | the 26 upper-case letters become the lower-case ones, as literal alphabets; no other byte changes |
| `HttpHeaders.HeadersRefineMap` | lib/src/http_server.h:15-40 | over any sequence of set, erase and clear the sorted multimap lists under every key the values of a map from lower-cased key to ordered list, and has as many fields |
| `HttpHeaders.StepAgrees` | lib/src/http_server.h:22-36 | the same for one operation |
| `HttpHeaders.EqualRangeIsValues` | lib/src/http_server.h:33 | the range of a key holds exactly its values in insertion order |
| `HttpHeaders.GetIsFirst` | lib/src/http_server.h:26-31 | get returns the first value of the key, or the empty string |
| `HttpHeaders.EmplaceValues` | lib/src/http_server.h:24 | an emplaced value comes last under its key; other keys keep theirs |
| `HttpHeaders.EmplaceSorted` | lib/src/http_server.h:24 | emplacing keeps the multimap sorted |
| `HttpHeaders.EraseValues` | lib/src/http_server.h:35 | erasing removes all values of the key and no other |
| `HttpHeaders.HeaderSet.GetField` | lib/src/http_server.h:26-31 | the first value of the key, or the empty string |
| `HttpHeaders.HeaderSet.HasField` | lib/src/http_server.h:32 | whether the key has a value |
| `HttpFraming.SizedResponse` | lib/src/http_server.cpp:184-235 | one end(data) on a fresh response: the RFC 9112 client gets exactly status, headers, body and end of message if and only if the status has three digits and, if it allows no body, the data is empty |
| `HttpFraming.StreamedResponse` | lib/src/http_server.cpp:184-227 | any number of send_data calls and end(): the client gets the payloads in order if and only if the status has three digits and allows a body; they are the concatenated data if and only if in each call every 65535-byte block repeats the first, as in every call of at most 65535 bytes |
| `HttpFraming.PayloadsAreData` | lib/src/http_server.cpp:191-200 | several calls carry the concatenation of their data if and only if each call carries its own; the lengths always agree |
| `HttpFraming.EmptyResponse` | lib/src/http_server.cpp:206-227 | end() alone is read as an empty body of length 0, exactly for three-digit statuses |
| `HttpFraming.PayloadIsData` | lib/src/http_server.cpp:191-200 | the chunks of one send_data carry the data if and only if every 65535-byte block of it repeats the first |
| `HttpFraming.PayloadRepeats` | lib/src/http_server.cpp:192-200 | byte i of what the chunks carry is byte i modulo 65535 of the data, since `data` is not advanced |
| `HttpFraming.LongBodyIsGarbled` | lib/src/http_server.cpp:192-200 | one send_data of a concrete body of 65536 bytes and end(): the client decodes a body of that length, but not that body |
| `HttpFraming.ChunksAt` | lib/src/http_server.cpp:191-200 | for any length the client decodes the chunks of one call to as many bytes as were given and goes on after them: no zero-size chunk is written before end |
| `HttpFraming.SizeReads` | lib/src/http_server.cpp:193-196 | a chunk-size line reads as that size |
| `HttpFraming.HeadReads` | lib/src/http_server.cpp:168-175 | status line and header section are read back, and the body starts after them; without three digits nothing is decoded |
| `HttpFraming.StatusLineReads` | lib/src/http_server.cpp:170 | the client reads the status if and only if it has three digits |
| `HttpFraming.FieldLineReads` | lib/src/http_server.cpp:171-173 | a field without line breaks and with a proper name is read back, up to blanks around its value |
| `HttpFraming.SetValues` | lib/src/http_server.h:22-25 | set replaces the values of its key, keeps all others, and keeps the headers writable |
| `HttpFraming.SizedFraming` | lib/src/http_server.cpp:229-232 | the headers of end(data) frame the body by its length |
| `HttpFraming.StreamFraming` | lib/src/http_server.cpp:185-190 | the headers of send_data frame the body by chunks |
| `HttpResponse.PhraseFound` | lib/src/http_server.cpp:157-166 | the phrase is that of the status in the table, and OK for statuses it does not have |
| `PluginConnection.Connection.SetResponseStatus` | lib/src/http_server.cpp:157-166 | stores status and message, or the table's phrase for an empty message |
| `PluginConnection.Connection.FindPhrase` | lib/src/http_server.cpp:160-163 | the loop finds the last entry of the status, OK by default |
| `PluginConnection.Connection.HeaderText` | lib/src/http_server.cpp:170-174 | builds status line, field lines and the empty line |
| `PluginConnection.Connection.SendHeaders` | lib/src/http_server.cpp:168-182 | writes the head once; then status, flags and headers are as the state machine says |
| `PluginConnection.Connection.SendChunks` | lib/src/http_server.cpp:192-200 | writes the chunk sequence of the data, at most 65535 bytes each |
| `PluginConnection.Connection.SendData` | lib/src/http_server.cpp:184-204 | writes head and body as specified, choosing chunked coding when no framing header is set |
| `PluginConnection.Connection.End` | lib/src/http_server.cpp:206-227 | writes what is missing, then resets every field but the URL; the phrase becomes empty, not OK |
| `PluginConnection.Connection.EndWithData` | lib/src/http_server.cpp:229-235 | content-length, body, end, reset |
| `PluginConnection.Connection.AnswerRequest` | lib/src/plugin.cpp:22-140 | answers as the state machine does, whose answers `PluginReplies` states at the client, for every URL and outcome |
| `PluginConnection.Connection.ActivateJson` | lib/src/plugin.cpp:48-54 | the text of the activation reply |
| `PluginConnection.Connection.OnEvent` | lib/src/http_server.cpp:6-73 | every callback makes the step of the state machine |
| `PluginConnection.Connection.OnRead` | lib/src/http_server.cpp:143-149 | the callbacks of one read are a run of the state machine; the socket is closed if and only if one of them fails or the parser rejects the bytes |
| `PluginRun.PipelinedResponses` | lib/src/plugin.cpp:74-140 | for every run of requests on an idle connection whose sends succeed, decoding the bytes on the wire gives exactly one response per request, in order, with exact status, fields and body, if and only if every status has three digits and allows its body |
| `PluginRun.OnlyThrownStatusesMatter` | lib/src/plugin.cpp:34-44 | a reply can break the framing only by a thrown status that is not three digits, or is 1xx, 204 or 304; exactly then it does |
| `PluginRun.ThrownStatusBreaks` | lib/src/plugin.cpp:36-38 | when a driver throws a status, the client decodes exactly that error reply from the wire if and only if the status has three digits and allows a body |
| `PluginRun.DefaultStatusBreaks` | lib/include/docker-plugin-cpp/plugin.h:98-101 | a thrown error whose status was not set has status 0: the client does not decode the reply |
| `PluginRun.NoContentBreaks` | lib/src/plugin.cpp:36-38 | nor the error object that follows a thrown 204 |
| `PluginReplies.ActivationReceived` | lib/src/plugin.cpp:48-77 | a POST to the URL /Plugin.Activate: the client decodes one message with status 200 and the content type of the protocol, whose body reads as an object with the one key Implements and the list of exactly the registered drivers, without repetition and in alphabetical order |
| `PluginReplies.ForeignReceived` | lib/src/plugin.cpp:134-138 | a POST to a URL that is none of the 29: status 404, no content type, body `Not found` |
| `PluginReplies.UnregisteredReceived` | lib/src/plugin.cpp:25-28 | a POST to the URL of a member of a driver that is not registered: status 404 with the content type, body `Not found` |
| `PluginReplies.OtherMethodReceived` | lib/src/plugin.cpp:64-70 | a request that is not a POST, whatever its URL: status 405, no content type, body `Method not allowed`, and the callback fails |
| `PluginReplies.MemberReceived` | lib/src/plugin.cpp:29-46 | a POST to the URL of a member of a registered driver has exactly that member called with URL, headers and body of the request; what it returns is received with 200; what it throws is read from the body under Err, with the thrown status if that can carry it, 400 for an invalid argument, 500 for any other exception |
| `PluginReplies.ReplyBytes` | lib/src/http_server.cpp:157-235 | the bytes of a reply, whatever its status and body: `HTTP/1.1 `, status, space, phrase, then the lines content-length and, for a typed reply, content-type with the type of the protocol, an empty line, the body |
| `PluginReplies.PhraseTexts` | lib/src/http_server.cpp:76-166 | the phrases of 200, 400, 404, 405 and 500, written out |
| `PluginEndpoint.FieldsReceived` | lib/src/plugin.cpp:24 | the fields that the client reads: content-length and, for a typed reply, content-type with the type of the protocol |
| `PluginEndpoint.MalformedBody` | lib/src/plugin.cpp:39-41 | a POST to the create-endpoint URL of a registered network driver with a body that the parser rejects with an error text: the client decodes one response with status 400, whose JSON body holds that text under Err |
| `PluginEndpoint.NoObject` | lib/src/serialize.cpp:58-65 | with a body that is JSON but no object: status 400 and `not a json object` |
| `PluginEndpoint.OverflowingBody` | lib/src/plugin.cpp:41-43 | with a body in which a number overflows, after anything well-formed: status 500 with an empty error, and the driver is not asked |
| `PluginEndpoint.OverflowingRequest` | lib/src/plugin.cpp:41-43 | such a request, with a concrete body |
| `PluginEndpoint.MalformedOptions` | lib/src/serialize.cpp:40-47 | with options that are not an object: status 500 and the text of the failed type check |
| `PluginEndpoint.EndpointCreated` | lib/src/plugin.cpp:30-34 | with any other body the driver is asked with the ids and the interface that stand in the body under NetworkID, EndpointID and Interface (Address, AddressIPv6, MacAddress); with status 200 the client reads an object that holds exactly the interface that the driver returned, under the same keys |
| `PluginEndpoint.EndpointRefused` | lib/src/plugin.cpp:35-43 | and what the driver throws, asked so, is read under Err with its own status, 400 or 500 |
| `PluginRun.FragmentationIndependent` | lib/src/http_server.cpp:10-69 | however a request is cut into fragments, and whatever was served before on the connection, the handler sees the same call and the client the same bytes |
| `PluginRun.HandlerSees` | lib/src/http_server.cpp:14-69 | the handler sees the whole URL and body, and under every name the values of the request's fields in order, names lower-cased |
| `PluginRun.RequestRun` | lib/src/http_server.cpp:216-226 | from any idle state a request is answered once, succeeds exactly when it is a POST, and leaves the connection idle |
| `PluginRun.RequestsRun` | lib/src/plugin.cpp:59-140 | a run of requests writes the replies one after the other, up to the first that is not a POST |
| `PluginRun.RepliesDecode` | lib/src/http_server.cpp:229-235 | a sequence of replies is decoded completely if and only if each one is framed |
| `PluginRun.FragmentsAppend` | lib/src/http_server.cpp:14-17 | fragments add up to their concatenation |
| `PluginRun.FieldsCollect` | lib/src/http_server.cpp:23-48 | the header callbacks collect the request's fields, in order |
| `PluginRun.CollectedValues` | lib/src/http_server.cpp:30-33 | collecting appends, under every key, the values of the new fields; names are lower-cased |
| `PluginRun.RunConcat` | lib/src/http_server.cpp:143-149 | running two event sequences in a row is running their concatenation, stopping at the first failure |
| `PluginRun.ErrorBodyReads` | lib/src/serialize.cpp:25-30 | for every byte string the error object on the wire reads back as that object |
| `PluginRun.ActivationReads` | lib/src/serialize.cpp:15-23 | the text that `PluginReplies.ActivationReceived` shows to be the reply reads back as the list of exactly the registered drivers, in alphabetical order |
| `PluginRun.ImplementedNames` | lib/src/plugin.cpp:48-54 | the insertions give the alphabetical list of the registered drivers |
| `PluginSpec.RoutesExclude` | lib/src/plugin.cpp:76-138 | each URL of the chain selects its own driver member, whatever the order of the tests; no other URL does |
| `PluginUrls.RoutesExactly` | lib/src/plugin.cpp:76-138 | against the list of all 29 URLs, each written out in full: a URL is routed to the activation or to a member if and only if it is that URL |
| `PluginUrls.ForeignIsUnknown` | lib/src/plugin.cpp:134-138 | exactly the URLs that are not on the list are routed to nothing |
| `UdsInvariant.EventLoopSafe` | lib/src/uds_server.cpp:72-121 | over every run: listed descriptors are distinct, non-negative and not the listener; a connection is in the list if and only if it had one connect and no disconnect; an accepted descriptor is closed at most once, and exactly when its connection is not in the list; nothing else of the server stays open |
| `UdsInvariant.TickKeepsInv` | lib/src/uds_server.cpp:72-121 | every tick keeps the invariant, whatever the kernel answers and whatever other descriptors of the process come and go |
| `UdsInvariant.RunKeepsInv` | lib/src/uds_server.cpp:72-121 | every run of ticks keeps it |
| `UdsInvariant.AcceptKeepsInv` | lib/src/uds_server.cpp:87-106 | accepting keeps it: refused, closed at its first read, or listed |
| `UdsInvariant.ScanKeepsInv` | lib/src/uds_server.cpp:107-119 | the scan keeps it from any index on |
| `UdsInvariant.ScanKeepsOpenOnes` | lib/src/uds_server.cpp:107-119 | after the scan the list holds, in order, the connections that were not ready, or whose read was to be tried again or gave data that left them open: erasing while iterating skips none |
| `UdsInvariant.ScanPolls` | lib/src/uds_server.cpp:107-119 | the scan reads from each connection once if its descriptor is ready, and otherwise not |
| `UdsInvariant.OnePollPerTick` | lib/src/uds_server.cpp:73-119 | at most one read per connection and tick; one accepted in the tick is not read again in the scan |
| `UdsInvariant.TickKeepsGone` | lib/src/uds_server.cpp:107-119 | a connection that is not in the list is not read and does not come back |
| `UdsInvariant.GoneIsNeverPolled` | lib/src/uds_server.cpp:107-119 | nor in any later run |
| `UdsStories.TickTells` | lib/src/uds_server.cpp:107-139 | a listed connection in a tick, case by case of what its read gave: EAGAIN or data without a close leave it listed, its descriptor open, with one read event more; end of file adds read, disconnect, close and takes it out; a hard error, or data on which on_read closed, adds read, close, disconnect and takes it out; unread, nothing changes |
| `UdsStories.NewTells` | lib/src/uds_server.cpp:87-106 | an accepted connection in its tick, by the same cases of its first read: connect, read, and listed with its descriptor open, or connect, read and its end, not listed; without an object only the close |
| `UdsStories.WholeLife` | lib/src/uds_server.cpp:72-139 | over every run the events of an accepted descriptor are, in this order: one connect, one or more reads, and, exactly when it is no longer in the list, one disconnect and one close; or a single close if it was refused |
| `UdsStories.ListAfter` | lib/src/uds_server.cpp:87-119 | the connections listed after a tick are exactly the listed ones that did not end and the new one that did not end |
| `UdsStories.ScanTells` | lib/src/uds_server.cpp:107-119 | the scan adds to the events of a connection what the reads of its ready entries give, and nothing else |
| `UdsInvariant.DropKeepsInv` | lib/src/uds_server.cpp:110-115 | dropping a listed connection keeps the invariant |
| `UdsServer.Connection.Close` | lib/src/uds_server.cpp:17-20 | closes the descriptor once and forgets it |
| `UdsServer.Connection.Write` | lib/src/uds_server.cpp:22-34 | returns the length exactly when the socket is open and the kernel took all the bytes in order; otherwise SIZE_MAX, with a prefix taken; a closed socket sends nothing |
| `UdsWrites.WriteAll` | lib/src/http_server.cpp:168-204 | writes whose results nobody looks at: of each piece a prefix is taken, in order; on a closed socket nothing |
| `UdsWrites.PrefixExactly` | lib/src/http_server.cpp:193-198 | what was taken of a response is a prefix of it, whatever its bytes are, if and only if nothing was taken after the first piece that was cut short |
| `PluginLoop.ConnectionsApart` | lib/src/uds_server.cpp:72-139 | for every run of the loop over any number of connections: what each has written, and the state it is in, are those of the callbacks that the ticks delivered to it, one after the other from a new connection; a listed one has had no failing callback |
| `PluginLoop.EveryClientIsServed` | lib/src/uds_server.cpp:72-139 | a client of any connection to which the ticks delivered the callbacks of requests decodes exactly one response per request, in order, if and only if each reply is framed |
| `PluginLoop.WhoStays` | lib/src/uds_server.cpp:127-139 | a ready connection stays listed if and only if its read is to be tried again, or gave bytes that the parser takes and whose callbacks all succeed |
| `PluginLoop.RunDelivers` | lib/src/uds_server.cpp:72-139 | the callbacks made on a connection over a run are those of the bytes that each tick delivers to it, in order, as the accepted connection or as a listed ready one |
| `PluginLoop.NextProjects` | lib/src/uds_server.cpp:127-139 | loop and connections together make exactly the ticks of the event loop alone, where a read closes a connection when a callback fails or the parser rejects the bytes |
| `PluginLoop.ScanProjects` | lib/src/uds_server.cpp:107-119 | the same for the scan of the list, in which each ready connection is fed once |
| `PluginLoop.ScanConsistent` | lib/src/uds_server.cpp:107-119 | the scan keeps every connection's state and wire those of its callbacks |
| `UdsServer.Server.constructor` | lib/src/uds_server.cpp:46-70 | after a successful bind: a listener, no connections, the invariant |
| `UdsServer.Server.HandleIo` | lib/src/uds_server.cpp:127-139 | reports closed if and only if the read gave end of file, a hard error (after closing), or data on which on_read closed the connection |
| `UdsServer.Server.Disconnect` | lib/src/uds_server.cpp:13-15 | disconnect event, then the descriptor is closed if it is still open |
| `UdsServer.Server.AcceptConnection` | lib/src/uds_server.cpp:87-106 | refines the accept step and keeps the invariant |
| `UdsServer.Server.ScanConnections` | lib/src/uds_server.cpp:107-119 | the loop that erases while iterating refines the recursive scan and keeps the invariant |
| `UdsServer.Server.ScanOne` | lib/src/uds_server.cpp:108-118 | one round of the loop, with progress |
| `UdsServer.Server.Run` | lib/src/uds_server.cpp:72-121 | one call of run is one tick of the state machine, keeps the invariant, and returns the errno of a failed select or 0 |
| `EndpointWire.InterfaceSurvives` | lib/src/serialize.cpp:257-298 | the request read from the text written for an endpoint response has that interface, empty or not, for all byte strings, and nothing else |
| `EndpointWire.InterfaceReads` | lib/src/serialize.cpp:258-277 | reading the object built for an interface gives the interface |
| `EndpointWire.InterfaceMembers` | lib/src/serialize.cpp:271-277 | the object built has exactly the three members, in map order |
| `EndpointRequest.RequestExactly` | lib/src/serialize.cpp:258-292 | a text reads as a request if and only if it is an accepted object whose Options, if any, are an object, and network id, endpoint id and the three addresses are the strings that the members hold under the literal keys NetworkID, EndpointID, Interface/Address, Interface/AddressIPv6 and Interface/MacAddress, each empty where there is no such string |
| `EndpointRequest.RequestFails` | lib/src/serialize.cpp:40-66 | every other text fails, with the parser's exception, the parser's error text, `not a json object`, or the text of the failed type check |
| `EndpointRequest.RequestSurvives` | lib/src/serialize.cpp:281-292 | a text, in either layout, that carries all members of a request reads as that request, for all byte strings |
| `EndpointRequest.ResponseReads` | lib/src/serialize.cpp:271-299 | the text written for a response reads as an object with the three addresses under their literal keys in Interface, and as an empty object for an empty interface |
| `EndpointWire.OptionsSurviveExactly` | lib/src/serialize.cpp:40-47 | a request is read exactly when the text is an accepted object whose options, if present, are an object, and an overflow is thrown exactly when the parser throws; the options read are the string members of that object if and only if it has none |
| `EndpointWire.LostOption` | lib/src/serialize.cpp:40-47 | a concrete request text with one option, read without it |

## Left out

- JsonTheorems.RoundTrip: the numeric value of a double is not modelled, only when it is infinite (`strtod` is taken
  to round to the nearest double) and that a finite one prints as a number token (`%.17g`, and `%.f` for integral
  ones, are library behaviour); the reader accepts decimal tokens, with "." as the decimal point.
- JsonParse.ParseArrayItem: a child context that points into its parent becomes a context whose value is stored
  into the parent afterwards; the aliasing of the two is not modelled. The same holds for
  `JsonParse.ParseObjectItem`.
- PluginConnection.Connection.OnRead: the bytes of a read are the callbacks the HTTP parser makes for them and its
  verdict; the parser (llhttp) is not part of this model. Runs of whole requests have no trailers, whose fragments
  would be appended to the body buffer.
- PluginConnection.Connection.AnswerRequest: `from_json`, the driver's member and `to_json` are one parameter; only
  `PluginEndpoint` puts the source's functions in, for the create-endpoint call.
- PluginConnection.Connection.Write: stands for a send that succeeds. Base class and derived class are one class.
- PluginRun.RequestRun: that nothing follows a request that is not a POST rests on the HTTP parser stopping when
  `on_url_complete` returns 1, as the parser release pinned in `lib/CMakeLists.txt` is taken to do.
- PluginLoop.ConnectionsApart: stated on the two state machines that the classes `PluginConnection.Connection` and
  `UdsServer.Server` refine; the two connection classes are not one object.
- PluginRun.PipelinedResponses: fields are compared up to blanks around their values, as RFC 9112 section 5 has it.
- UdsServer.Server.Disconnect: the list is taken as the only owner of a connection, so its destructor runs there.
- HttpHeaders.GetIsFirst: `find` on several equivalent keys is taken to return the first, which the standard leaves
  open and the common libraries do.
- `picojson::operator==`, which compares integers as doubles; values are compared structurally here.
- Overflow of the line counter and of the indentation, which are C++ `int`.
- Union storage, copies, moves and destructors of JSON values; the null and the deny parse contexts; `istream` input.
- A header value before any header name: the source compares an iterator that belongs to no container there; the
  parser never reports one.
- Logging, `bind`, socket creation, signals, timeouts, descriptors above `FD_SETSIZE`, the address passed to accept.
- Exceptions that do not derive from `std::exception`, and exceptions that leave callbacks.
- The other `from_json` and `to_json` functions, field by field alike; the IPv6 pool data, never read by the source.
- `sample_volume`: directory calls and printing.
