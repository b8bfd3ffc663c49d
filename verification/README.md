# Verification of airobot_msg

A Dafny 4.11 model of the message server, with proofs about it. `dafny verify dfyconfig.toml` checks
everything.

The server accepts HTTP connections at the front, reads POST requests with a JSON body, hands them to
backend connections and sends replies. The model follows the program's parts:

* **json11** (`Json*.dfy`, `Utf8.dfy`): the recursive-descent parser is a class with the cursor, the
  failure flag and errno as fields; its methods are proved equal to the functions of `JsonParsing`,
  and these to the grammar of RFC 8259 in `JsonGrammar`, which knows nothing of the parser and in
  COMMENTS mode has comments among its whitespace. The serializer is a class too, and is proved to
  write text that parses back. `JsonOrder` is the order of values. `JsonTokens` says what each token,
  blank, comment and escape means, character by character.
* **The front registry** (`Registry.dfy`, `WheelExpiry.dfy`, `HttpServer.dfy`): accept handler,
  connection handlers, timing wheel and manager as a state machine. What the program does under a
  mutex is one step; the check of the maximum and the commit of an accept, the copy, each item and the
  push of a tick, and each item of the manager's pass are separate steps, in any interleaving.
  `Registry.Enabled` says when a step can happen and `Registry.Apply` what it does. `HttpServer.dfy`
  is the class with the program's own fields and loops; each method is proved to be a run of those
  steps, so every invariant of the state machine holds of it.
* **Framing and replies** (`Socket.dfy`, `FrameReader.dfy`, `FrontConn.dfy`, `HttpText.dfy`,
  `HttpParser.dfy`, `Reply.dfy`, `RequestLines.dfy`): what a socket delivers is a list of chunks, cut
  anywhere; what it takes is any part of what is offered. The theorems say that the cuts do not matter.
* **Backend dispatch** (`BackendServer.dfy`).

What the outside world decides is a parameter or an arbitrary choice: strtod, printf of doubles and
the conversion of integers to double (`Libc`), the clock, which connections are referred to from
elsewhere, how much a read or a write moves, and when it fails.

Where the code does not do what it says, the model follows the code and a lemma shows by how much:

* `include/json11.hpp:180` promises `Json()` for every failed parse. `UnterminatedString`,
  `SlashInBraces`, `SlashAfterArray` and `SlashAfterString` are inputs where it is not returned, and
  `FailedParseReturnsNull` says exactly when it is, in both strategies.
* The integer conversion tests errno, which nothing clears (`source/json11.cpp:619-629`).
  `StaleErrno` is a document with an integer that becomes a double, and `PoisonedIntegers` says which
  ones do.
* strtod is given the text from a literal to its end (`source/json11.cpp:659`), so a 0 that a stale
  errno sends to it is read as a hexadecimal number if x and hexadecimal digits follow. What strtod
  does with any other literal is the law in the type `Libc`. `CutChangesNumber` is an input where
  therefore the text before `parser_stop_pos` does not give the elements parsed so far, and
  `StopPrefix` says exactly when it does not.
* The manager logs "SKIP" for a connection that is still referred to, but erases it as well
  (`source/manage.cpp:160-168`). So does the model, and no proof relies on the reference count.
* A request with a Content-Length of zero, or without one, is taken for a read error
  (`source/front_conn.cpp:176`, `source/front_conn.cpp:312`): `ErrorIffNoLength`, and `MissingLength` is
  an input.
* A comment that ends exactly where the input ends is an error (`source/json11.cpp:414`,
  `source/json11.cpp:431`); see `MayEnd` in `JsonGrammar`.
* A negative Content-Length or frame length becomes a huge size_t (`source/front_conn.cpp:143`,
  `source/client_ops.cpp:54`). Below -256 resize throws. From -256 on the buffer for a frame is cut down
  to length + 256 bytes, and the program reads past it exactly if more than that came with the prefix:
  `FrameReader.CutBelow`, with the inputs `NegativeOverruns` and `NegativeConfined`; else it reads until
  the buffer is full. The read of a body is confined exactly for lengths that are not negative
  (`FrontConn.RoomFor`); with -1 the buffer of a connection is not even resized.

The assertions at `source/co_worker.cpp:73`, `source/front_conn.cpp:146` and
`source/front_conn.cpp:378` are guards of steps or preconditions: the theorems are about runs that do
not abort there.

## Model

| member | source | states |
|---|---|---|
| `JsonParser.Parse` | source/json11.cpp:770-780 | json11::Json::parse run on the parser object gives the value, error and errno of the specification function JsonParsing.Parse, on every text, in both strategies |
| `JsonParser.ParseMulti` | source/json11.cpp:783-798 | parse_multi gives the values, stop position and error of JsonParsing.ParseMulti; its loop ends because the cursor moves on or the parse has failed |
| `JsonParser.Parser.ParseJson` | source/json11.cpp:682-766 | the method leaves exactly the state and value of JsonParsing.ParseJson: dispatch on the token, depth check, first error kept |
| `JsonParser.Parser.ParseObject` | source/json11.cpp:708-739 | the member loop refines JsonParsing.ParseMembers |
| `JsonParser.Parser.ParseArray` | source/json11.cpp:741-763 | the element loop, with its step back before each element, refines JsonParsing.ParseElements; the step back never underflows |
| `JsonParser.Parser.ParseString` | source/json11.cpp:500-587 | the surrogate automaton with its pending code point writes the bytes that the declarative decoding Decode gives the characters of the literal: greedy pairs, lone surrogates alone |
| `JsonParser.Parser.ParseEscape` | source/json11.cpp:525-586 | one escape keeps what is written, what is pending and what is still to come equal to that decoding |
| `JsonParser.Parser.ParseNumber` | source/json11.cpp:593-660 | the number scanner refines JsonParsing.ParseNumber, with errno carried through |
| `JsonParser.Parser.AfterInteger` | source/json11.cpp:612-659 | the integer gates of 20 characters, the errno test and the fall to strtod, which is given the text from the literal on |
| `JsonParser.Parser.Exponent` | source/json11.cpp:645-659 | the exponent part and the call of strtod on the text from the literal on |
| `JsonParser.Parser.Expect` | source/json11.cpp:667-676 | a keyword is matched at the byte before the cursor, and the cursor is put after it or left there |
| `JsonParser.Parser.ConsumeComment` | source/json11.cpp:401-440 | both kinds of comment; one that ends exactly at the end of input is an error |
| `JsonParser.Parser.ConsumeGarbage` | source/json11.cpp:446-456 | whitespace and, in COMMENTS mode, comments are skipped; the loop terminates |
| `JsonGaps.GarbageBreaks` | source/json11.cpp:392-456 | between two tokens the parser fails if and only if, after whitespace and whole comments, a comment breaks off; the text determines where the cursor then rests |
| `JsonParser.Parser.GetNextToken` | source/json11.cpp:463-469 | the next byte that counts, or a failure and NUL at the end |
| `JsonParser.Parser.Fail` | source/json11.cpp:376-386 | only the first failure sets the message, and failure is never taken back |
| `JsonParsing.ParseJson` | source/json11.cpp:682-766 | on every text and state the cursor stays within the text, success moves it forward, failure and the first message stay |
| `JsonParsing.ParseMembers` | source/json11.cpp:714-737 | the same discipline for the member loop; it terminates |
| `JsonParsing.ParseElements` | source/json11.cpp:747-761 | the same discipline for the element loop; it terminates |
| `JsonParsing.ParseMulti` | source/json11.cpp:787-797 | without a failure the whole input is consumed; the stop position stays within it |
| `JsonComplete.Complete` | source/json11.cpp:682-780 | in both strategies every text that the grammar derives, at most 200 deep, is parsed whole, without error, to the value of its derivation |
| `JsonComplete.ReadsAsAlone` | source/json11.cpp:612-659 | what follows a literal does not change what is read, unless a stale ERANGE sends a zero to strtod with an x behind it |
| `JsonSound.Sound` | source/json11.cpp:682-780 | in both strategies whatever is parsed without error has a derivation |
| `JsonSound.ParserIsTheGrammar` | source/json11.cpp:682-780 | in both strategies the parse succeeds if and only if the text has a derivation, in COMMENTS mode with comments in the gaps, and its value is that of every derivation |
| `JsonMulti.MultiIsTheGrammar` | source/json11.cpp:783-798 | in both strategies parse_multi succeeds if and only if the text is a row of documents, and returns their values |
| `JsonMulti.StopPrefix` | source/json11.cpp:790-796 | of a failed parse, the text up to the stop position parsed again gives all elements but the last, with the one before it different if and only if HexTail holds; the second parse fails if and only if the cut ends in a slash-star comment, never in STANDARD mode |
| `JsonMulti.CutChangesNumber` | source/json11.cpp:627-659 | the input: in 1e999 0x10 the 0 is read as strtod reads 0x10, and parsed again up to the stop position as 0 |
| `JsonMulti.ParseDumpedInRow` | include/json11.hpp:193-198 | dumped values in a row, concatenated or with gaps, are read back as the list, up to the tags of numbers, if no number runs into the dump behind it |
| `JsonProperties.EscapesAreUtf16` | source/json11.cpp:531-566 | any sequence of Unicode scalars spelled in \u escapes, with pairs beyond the BMP, each digit printed in lower or upper case, is decoded to UTF-8 bytes that decode to the same sequence |
| `JsonProperties.HexIsPrinted` | source/json11.cpp:540-546 | four bytes are taken for the hexadecimal digits of a code unit if and only if they print it, each digit from 0 to 9 and a to f or A to F |
| `JsonProperties.HexOfEitherCase` | source/json11.cpp:546 | lower-casing the digits of an escape does not change its code unit |
| `JsonTokens.EscapedText` | source/json11.cpp:525-566 | the same of a whole text: a string of such escapes in quotation marks is parsed to the UTF-8 of the scalars, in both strategies |
| `JsonTokens.AcuteAccent` | source/json11.cpp:546 | an input: \u00E9 and \u00e9 are the bytes C3 A9 |
| `JsonTokens.ShortEscapes` | source/json11.cpp:569-586 | the eight escapes of two characters stand for these eight bytes, and any other letter but u is an error |
| `JsonTokens.RawByte` | source/json11.cpp:504-522 | a byte of a string stands for itself, a byte below 32 is an error, and so is a string without its closing mark |
| `JsonTokens.Keywords` | source/json11.cpp:696-703 | null, true and false, letter by letter |
| `JsonTokens.BadNumbers` | source/json11.cpp:600-656 | seven texts that are no numbers: a leading zero or plus, and a sign, dot or exponent without digits |
| `JsonTokens.Whitespace` | source/json11.cpp:392-395 | behind a value exactly the blank, the tab, the line feed and the carriage return are skipped |
| `JsonTokens.CommentsBefore` | source/json11.cpp:401-440 | in COMMENTS mode a line comment with any text but a line feed, and a block comment with any text that does not close it, are skipped |
| `JsonTokens.NoCommentsInStandard` | source/json11.cpp:446-456 | in STANDARD mode a text that begins with a slash is an error |
| `JsonTokens.DepthLimit` | source/json11.cpp:682-686 | n nested brackets are parsed to n nested arrays if n is at most 201, and fail otherwise |
| `JsonTokens.DepthOfObjects` | source/json11.cpp:682-739 | the same limit for nested objects |
| `JsonProperties.LoneSurrogate` | source/json11.cpp:552-562 | a surrogate escape without its partner, anywhere in a string, makes it something that is not UTF-8, whatever bytes stand around it |
| `JsonProperties.LastDuplicateWins` | source/json11.cpp:709-738 | of several members with one key the last is found, other keys are as they were, the keys ascend |
| `JsonProperties.EvalIsValid` | source/json11.cpp:709-762 | every value read keeps the order of std::map at every depth |
| `JsonErrno.ErrnoIsSticky` | source/json11.cpp:616-631 | after a text errno is ERANGE if and only if it was before or some literal raised it |
| `JsonErrno.RaisesIff` | source/json11.cpp:612-659 | a literal raises ERANGE if and only if it is an integer beyond 64 bits of at most twenty characters, or strtod reads it and raises it |
| `JsonErrno.EvalIsFill` | source/json11.cpp:612-659 | the numbers in the value of any derivation are its literals read from left to right, errno carried from one to the next |
| `JsonErrno.PoisonedIntegers` | source/json11.cpp:616-631 | of every text that parses: in the place of each literal stands its exact integer if 64 bits hold it and errno is clear by then, else what strtod reads; so all 64-bit integers are exact if and only if none follows a literal that raised ERANGE, or a stale errno |
| `JsonErrno.StaleErrno` | source/json11.cpp:616-631 | the inputs: Json::parse of [18446744073709551616, 1], and of any such pair, gives the second number as a double, of the second number alone an exact integer |
| `JsonErrno.LongInteger` | source/json11.cpp:612-633 | an integer of more than twenty digits raises nothing by itself: the number after it is an exact integer |
| `JsonFailures.FailedValue` | source/json11.cpp:682-766 | in both strategies a failed parse_json returns null, but the empty string if and only if a string broke off, and a container if and only if its closing bracket was read after a comment that broke off |
| `JsonFailures.FailedParseReturnsNull` | include/json11.hpp:180-183 | the header promises Json() for every failure; in both strategies something else is returned if and only if a top-level string broke off with only garbage behind it, or a comment broke off at the end behind a value other than null, or one before the closing bracket of a top-level container; and what it is |
| `JsonFailures.UnterminatedString` | source/json11.cpp:504-505 | an input: an unterminated string fails with the empty string, in both strategies |
| `JsonFailures.SlashInBraces` | source/json11.cpp:710-712 | an input: in COMMENTS mode {/} fails with the empty object |
| `JsonFailures.SlashAfterArray` | source/json11.cpp:775-779 | an input: in COMMENTS mode []/ fails with the empty array |
| `JsonFailures.SlashAfterString` | source/json11.cpp:775-779 | an input: in COMMENTS mode ""/ fails with the empty string |
| `JsonDump.Writer.Dump` | source/json11.cpp:63-141 | dump appends Dumped, the text of the value, to what was written |
| `JsonDump.Writer.DumpString` | source/json11.cpp:80-115 | the escaping loop with its look-ahead writes the literal of CharsOf |
| `JsonDump.Writer.DumpByte` | source/json11.cpp:82-113 | one round of it: the escape of one byte, or of the three bytes of U+2028 and U+2029 |
| `JsonDump.Writer.DumpArray` | source/json11.cpp:117-127 | the elements, separated, in brackets |
| `JsonDump.Writer.DumpObject` | source/json11.cpp:129-141 | the members, separated, in braces |
| `JsonTokens.DumpedWords` | source/json11.cpp:49-78 | null, true and false; what is not finite is written as null, a finite double as %.17g prints it |
| `JsonTokens.DumpedArray` | source/json11.cpp:117-127 | the dumped elements joined by a comma and a blank, in brackets |
| `JsonTokens.DumpedObject` | source/json11.cpp:129-141 | the members, key, colon, blank and value, joined by a comma and a blank, in braces |
| `JsonTokens.DumpedByte` | source/json11.cpp:80-115 | what each byte is written as: an escape of two characters, a \u escape in lower case, or itself |
| `JsonTokens.DumpedSeparators` | source/json11.cpp:102-109 | U+2028 and U+2029 are written as escapes |
| `JsonRoundTrip.StringRoundTrip` | source/json11.cpp:80-115 | for every byte string, parsing its dumped literal gives the same bytes and stops after the closing quote |
| `JsonRoundTrip.ExactIntegers` | source/json11.cpp:612-633 | with errno clear, a literal without fraction or exponent is an exact UInt64 below 2^64, an exact Int64 from -2^63, and a double otherwise; the length gates exclude nothing |
| `JsonRoundTrip.RoundTrip` | source/json11.cpp:80-141 | the dump of a value, followed by anything that does not go on with a number, is parsed back to the value with non-negative integers retagged, and doubles as they are read back |
| `JsonRoundTrip.ParseDump` | source/json11.cpp:80-141 | in both strategies Json::parse of a dump succeeds with that value |
| `JsonRoundTrip.ParseDumpEquals` | source/json11.cpp:321-326 | and operator== holds between the two, for all values whose doubles are finite and printed so that they can be read back |
| `JsonRoundTrip.RetagIsEqual` | source/json11.cpp:186-204 | what comes back is equal by operator==: the tag of an integer does not matter, nor that a double without a fraction comes back as an integer |
| `JsonRoundTrip.DumpRetag` | source/json11.cpp:67-73 | nor to dump |
| `JsonRoundTrip.ReadBackIsEqual` | source/json11.cpp:53-57 | what the text of a double is read as is equal to it, and dumps to the same text |
| `JsonOrder.Trichotomy` | source/json11.cpp:321-333 | over NaN-free values exactly one of less, equal, greater holds, through arrays and objects |
| `JsonOrder.LessTransitive` | source/json11.cpp:328-333 | operator< is transitive over NaN-free values |
| `JsonOrder.OperatorsAreCompare` | source/json11.cpp:165-204 | operator== and operator< are the sign of one three-way comparison |
| `JsonOrder.CompareFlips` | source/json11.cpp:321-333 | swapping the operands flips it |
| `JsonOrder.CompareChains` | source/json11.cpp:321-333 | it chains: the mutual induction over values, arrays and objects behind transitivity |
| `JsonOrder.DerivedOperators` | include/json11.hpp:209-214 | <= is < or ==, total, antisymmetric and transitive; >= is its mirror |
| `JsonOrder.ReflexiveIffNaNFree` | source/json11.cpp:180-190 | a value equals itself if and only if it holds no NaN |
| `JsonOrder.TypesInOrder` | source/json11.cpp:328-333 | null comes before numbers, these before bools, strings, arrays and objects in this order, and false before true |
| `JsonOrder.DoublesByValue` | source/json11.cpp:180-190 | finite doubles are in the order of the reals, between the infinities; NaN is in no order |
| `JsonOrder.IntegersByValue` | source/json11.cpp:186-204 | integers of either tag are in the order of the integers as far as the conversion to double keeps it, and among doubles by that conversion |
| `JsonOrder.StringsByBytes` | source/json11.cpp:168-170 | strings are in the order of their first different bytes, and a proper prefix comes first |
| `JsonOrder.ArraysByElements` | source/json11.cpp:168-170 | arrays are in the order of their first elements that are no ties, else of their lengths |
| `JsonOrder.ObjectsByEntries` | source/json11.cpp:168-170 | objects are in the order of their first differing entries, by key and then by value, else of their sizes |
| `JsonOrder.EqualByParts` | source/json11.cpp:165-167 | strings and bools are equal if they are the same, arrays element by element, objects entry by entry |
| `Utf8.DecodeEncode` | source/json11.cpp:475-494 | the RFC 3629 decoder reads every encoded scalar back, whatever follows |
| `Utf8.EncodeDecode` | source/json11.cpp:475-494 | and what the decoder accepts is the encoding of what it read: no overlong forms |
| `Utf8.LoneSurrogateIsNotUtf8` | source/json11.cpp:475-494 | an encoded surrogate is refused by the decoder |
| `Utf8.PairIsBijective` | source/json11.cpp:552-557 | every scalar beyond the BMP is the pair of its own two surrogates |
| `Bytes.DigitsAreAscii` | source/json11.cpp:600-609 | the digits are the characters 0 to 9, with these values |
| `Registry.KeepsInv` | source/http_server.cpp:82-135 | every step of every thread keeps the whole invariant |
| `Registry.KeepsConsistent` | source/manage.cpp:155-182 | every step keeps counter, cache and maximum in agreement |
| `Registry.KeepsReferenced` | source/http_server.cpp:107-129 | every step keeps what is referred to alive and the next connection new |
| `Registry.KeepsWellPlaced` | source/co_worker.cpp:65-112 | every step keeps the ten slots, the tick within the front slot and the pass within the list to remove |
| `Registry.KeepsSlots` | source/co_worker.cpp:107-112 | between rotations slots only grow, and only the back one does |
| `Registry.KeepsWatched` | source/co_worker.cpp:66-102 | a registered connection stays in sight of the wheel until it is listed for removal |
| `Registry.KeepsCovered` | source/co_worker.cpp:59-112 | every step keeps every registered connection in a slot, in the surviving copy, or listed |
| `Registry.ReachableIsInv` | source/http_server.cpp:44-50 | the invariant holds after every run from start-up |
| `Registry.RegistryIsConsistent` | source/manage.cpp:155-182 | whenever the registry mutex is free the counter is the number of registered connections; the cache is distinct, unregistered, at most three tenths of the maximum |
| `Registry.CapacityIsKept` | source/http_server.cpp:95-128 | the maximum is never exceeded although it is checked outside the mutex |
| `Registry.WheelCoversRegistry` | source/co_worker.cpp:59-112 | in every reachable state, in mid-tick too, each registered connection is in a slot, in the surviving copy, or listed for removal |
| `Registry.SlotsCoverRegistry` | include/http_server.hpp:94-100 | between ticks with nothing to remove the slots alone hold every registered connection |
| `WheelExpiry.ExpiredOnlyWhenIdle` | source/co_worker.cpp:80-95 | over every run, a connection listed for removal without an error of its own was at some moment last touched expiry - expiry / 10 seconds ago, or longer |
| `WheelExpiry.NotBeforeNineTenths` | source/co_worker.cpp:80-95 | over every run, by the clock: from a touch on expiry - expiry / 10 seconds pass before a connection without an error of its own is listed |
| `WheelExpiry.TouchIsClock` | source/front_conn.cpp:63 | the steps that start a read or a write, and the accept, set the touch time to the clock; no other step changes it |
| `WheelExpiry.RegisteredIsDue` | source/co_worker.cpp:59-112 | every registered connection is looked at within ten rotations, eleven from mid-tick |
| `WheelExpiry.DueStep` | source/co_worker.cpp:66-112 | every step, rotation or not, brings an overdue connection nearer to the list or leaves it as near |
| `WheelExpiry.TenTicksExpire` | source/co_worker.cpp:59-112 | over every run, an idle connection that is not touched is listed within ten ticks |
| `WheelExpiry.ExpiredByDeadline` | source/co_worker.cpp:117-120 | with ticks on schedule an untouched connection is listed by 2 * expiry - expiry / 10 seconds after its last touch |
| `WheelExpiry.ListedAfterTouch` | source/co_worker.cpp:117-120 | by the clock: a connection that is touched, and not again, is listed within 2 * expiry - expiry / 10 seconds, with ticks on schedule |
| `HttpServer.HttpServer.constructor` | source/http_server.cpp:44-50 | the filled wheel and the empty registry are an initial state |
| `HttpServer.HttpServer.SetConnExpiredTime` | include/http_server.hpp:117-122 | a time of ten seconds or less is ignored |
| `HttpServer.HttpServer.GetConnCheckSpare` | include/http_server.hpp:125-129 | the spare is at least a second, and ten of it fit in the expiry time |
| `HttpServer.HttpServer.AcceptHandler` | source/http_server.cpp:82-135 | the handler is the run of the accept steps; what it registers is new to the registry, the oldest cached connection or a new one, in the back slot, touched and working |
| `HttpServer.HttpServer.Register` | source/http_server.cpp:109-129 | the part under the mutex is the commit step |
| `HttpServer.HttpServer.TakeConn` | source/http_server.cpp:112-124 | the first cached connection, or a new one |
| `HttpServer.HttpServer.PushToRemove` | include/http_server.hpp:86-92 | the connection is listed; what was listed stays |
| `HttpServer.HttpServer.NotifyConnError` | source/front_conn.cpp:366-374 | error status and listing are the two steps of the error path |
| `HttpServer.HttpServer.SetSessionId` | source/http_server.cpp:150-160 | true if and only if registered; only that session changes |
| `HttpServer.HttpServer.RequestConnection` | source/http_server.cpp:162-179 | the connection of a session, or none if and only if nobody has it |
| `HttpServer.HttpServer.TimingWheelCheck` | source/co_worker.cpp:59-112 | an undisturbed tick is a run of the tick steps; of the front slot it lists what is in use and was last touched expiry - expiry / 10 seconds ago or longer, as errors, puts the younger ones at the back, changes nothing else, and notifies exactly if one was listed |
| `HttpServer.HttpServer.CheckItem` | source/co_worker.cpp:66-102 | one item: dropped if it is gone or pending, expired if it was last touched expiry - expiry / 10 seconds ago or longer, kept otherwise |
| `HttpServer.TickedByAge` | source/co_worker.cpp:65-112 | what a tick does to each connection of the front slot, by its age in seconds |
| `HttpServer.HttpServer.ManagePass` | source/manage.cpp:138-182 | an undisturbed pass, in any order in which its assertion holds, is a run of the manager steps: the listed are erased, the counter is the size of the registry, as many as three tenths of the maximum leave room for go to the cache and are pending, no other status changes, busy ones go back to the wheel and are erased all the same |
| `HttpServer.HttpServer.RemoveItem` | source/manage.cpp:157-178 | one item of the pass, with conn_wash_white |
| `HttpServer.MidPassErase` | source/manage.cpp:157-178 | erasing one more keeps the account of the pass |
| `HttpServer.MidTickStep` | source/co_worker.cpp:66-102 | one item of the tick is one or two steps of the protocol |
| `FrameReader.FrameReader.SyncReadFrom` | source/client_ops.cpp:35-85 | for every cut of the stream the result, the buffer and what is left on the stream satisfy Outcome: nothing lost or repeated, less than the length only at the end of the stream; resize throws if and only if the length is below -256, and a read starts past the end of the buffer if and only if it is negative otherwise and more than length + 256 bytes came with the prefix |
| `FrameReader.FrameReader.ReadRest` | source/client_ops.cpp:71-84 | the bytes are the stream in order, until the length is reached, the buffer is full or the stream ends; a sub-read overruns if and only if the loop starts beyond the end of the buffer |
| `FrameReader.FrameReader.DropPrefix` | source/client_ops.cpp:61-69 | the prefix is erased; resize throws if and only if the length is below -256, else the buffer has the size RoomFor gives and keeps what came with the prefix, as far as it is not cut off |
| `FrameReader.FrameReader.ReadPayload` | source/client_ops.cpp:61-84 | prefix erased, room made and sub-reads together, for every length but zero, negative ones included |
| `FrameReader.RoomFor` | source/client_ops.cpp:53-69 | the buffer holds a payload of a length that is not negative; for a negative one resize throws, or from -256 on cuts the buffer down to length + 256 |
| `FrameReader.CutBelow` | source/client_ops.cpp:71-84 | the sub-reads start beyond the end of the buffer if and only if the length is at least -256 and negative and more than length + 256 bytes came with the prefix |
| `FrameReader.NegativeOverruns` | source/client_ops.cpp:54-84 | an input that overruns: a first read of -256:a, whatever follows |
| `FrameReader.NegativeConfined` | source/client_ops.cpp:54-84 | a negative input that does not: after a first read of just -5: the call returns, with at most 251 bytes, whatever follows |
| `FrameReader.FrameIsDelivered` | source/client_ops.cpp:35-85 | if the first read has the whole prefix of a frame, then however the rest is cut the payload is at the front and what follows it continues the stream |
| `FrameReader.FrameHasPrefix` | source/client_ops.cpp:45-59 | the decimal prefix of a frame is recognised among its first twenty bytes |
| `FrameReader.PrefixWasRead` | source/client_ops.cpp:45-61 | in a zeroed buffer the prefix never comes from beyond the bytes read |
| `FrameReader.PrefixIsFirst` | source/client_ops.cpp:45-53 | there is a prefix if and only if a colon is among the first twenty bytes with no NUL before it, and the first one ends it |
| `FrontConn.FrontConn.ReadHeadHandler` | source/front_conn.cpp:121-220 | every branch of the head handler: refused, not found, unparsable, failed, aborted, the body begun, or, for a negative Content-Length, broken off |
| `FrontConn.FrontConn.DispatchHead` | source/front_conn.cpp:130-185 | method and URI decide |
| `FrontConn.FrontConn.BeginBody` | source/front_conn.cpp:143-178 | what came with the head is the start of the body, and is read on or handled; a body of no bytes is taken for an error, and one of a negative length is never handled |
| `FrontConn.FrontConn.ErrorIffNoLength` | source/front_conn.cpp:167-178 | of every request that is served: it is taken for a read error as its head comes if and only if its Content-Length is zero or missing |
| `FrontConn.FrontConn.MissingLength` | source/front_conn.cpp:312-322 | the input: POST /aa without headers is taken for a read error and gets no answer |
| `RequestLines.RequestIsRead` | source/http_parser.cpp:31-57 | a printed head, with any blanks and headers, is found and read: the method in capitals, the URI without its last slashes, the version, each header under its name in any case, nothing under a name no header has |
| `FrontConn.FrontConn.TakeAdditional` | source/front_conn.cpp:144-163 | room is made for the body and a NUL and what came with the head is copied; resize throws if and only if the length is below -256, and the copy overruns if and only if the length is negative otherwise and the buffer, cut down or left as it is, is not longer than what came |
| `FrontConn.RoomFor` | source/front_conn.cpp:143-152 | the body stays inside the buffer if and only if the Content-Length is not negative; for -1 the buffer is not even resized |
| `FrontConn.FrontConn.ReadBodyHandler` | source/front_conn.cpp:223-332 | read on, handled, failed or aborted |
| `FrontConn.FrontConn.HandleBody` | source/front_conn.cpp:238-307 | the body handed on is the buffer up to r_size_, and the reply is, by the URI in any case, aa, cc, or for /bb bb_ret if the body is no JSON and else the answer of the backend or nothing |
| `FrontConn.FrontConn.ParsesAsJson` | source/front_conn.cpp:246-257 | the JSON test of /bb, with whatever errno there is, accepts exactly what the grammar derives |
| `FrontConn.FrontConn.DoReadBody` | source/front_conn.cpp:76-96 | one exact read completes the body, or the stream ends in an error; with a negative length the read has more room than the buffer |
| `FrontConn.FrontConn.ReadRequest` | source/front_conn.cpp:121-332 | for every cut of a request into reads the body handled is exactly its body, and nothing is left over |
| `FrontConn.FrontConn.ServeRequest` | source/front_conn.cpp:55-353 | what is sent is exactly one reply, or a prefix of it when a write fails; read back it is 200 with aa for /aa, cc for /cc, and for /bb bb_ret if and only if no derivation gives the body up to its NUL, else the answer of the backend up to its NUL, or nothing |
| `FrontConn.FrontConn.ServeAll` | source/front_conn.cpp:326-331 | over any number of keep-alive requests the bodies handled are those of the requests in order, and the bytes sent are their replies in order, cut short if a write fails |
| `FrontConn.FrontConn.DoWrite` | source/front_conn.cpp:98-119 | over any sequence of partial writes the bytes sent are those of the window, once and in order |
| `FrontConn.FrontConn.WriteHandler` | source/front_conn.cpp:335-364 | after the last partial write both positions are zero; an error drops the rest |
| `FrontConn.FrontConn.NotifyConnError` | source/front_conn.cpp:366-370 | sizes cleared, status error |
| `FrontConn.FrontConn.FillForHttp` | source/connection.cpp:112-125 | the write window is the generated reply, in a buffer with room for its NUL |
| `FrontConn.FrontConn.FillAndSend` | source/connection.cpp:81-92 | the data goes out once and in order |
| `FrontConn.RequestIsFound` | source/front_conn.cpp:125-145 | whatever part of a request has come with its head, the head found and the options read are those of the request |
| `FrontConn.AnswerIsRead` | source/front_conn.cpp:238-301 | every answer the server sends is read back by the parser with its content and length |
| `FrontConn.AnswerByUri` | source/front_conn.cpp:238-301 | the answer to each request, by its URI and its body, as the peer reads it |
| `FrontConn.FrontConn.RefusalIsRead` | source/front_conn.cpp:130-213 | what a refused head is answered with, as the peer reads it: the page of 500 without a blank line, of 400 if the method is not POST, of 404 for another URI |
| `FrontConn.PrintedRequest` | source/front_conn.cpp:125-145 | every head a client prints with POST and one of the three URIs in any case, slashes at its end or not, and one Content-Length in any case, is a request of that length |
| `HttpParser.HttpParser.ParseRequest` | source/http_parser.cpp:11-60 | true if and only if the C string has a blank line; the options are then HeaderOpts of it, else unchanged |
| `HttpParser.HttpParser.ParseHeader` | source/http_parser.cpp:27-57 | the getline loop stops at the empty line |
| `HttpParser.HttpParser.ParseLine` | source/http_parser.cpp:33-56 | a line with a colon is an entry, another is a request line or nothing |
| `HttpParser.HttpParser.InsertRequest` | source/http_parser.cpp:46-54 | method in upper case, URI without trailing slashes, version |
| `HttpParser.HttpParser.RequestOption` | source/http_parser.cpp:62-74 | the first entry whose name is the same but for the case of ASCII letters, or nothing if there is none |
| `HttpParser.IEqualsIsCase` | source/http_parser.cpp:69 | two strings are the same to iequals if and only if they have one length and at each place one byte or the two cases of one ASCII letter |
| `HttpParser.OptionIsFound` | source/http_parser.cpp:62-74 | an entry spelled in any case is found, the first such in the map |
| `HttpParser.HeadEndIsFirst` | source/http_parser.cpp:23-25 | the head ends with the first blank line of the text |
| `HttpParser.InsertKeepsFirst` | source/http_parser.cpp:36-38 | an insertion keeps the entry there is, and adds nothing else |
| `HttpParser.ParseKeepsSorted` | source/http_parser.cpp:31-57 | the options stay a map in order of names |
| `HttpParser.MatchIsLeast` | source/http_parser.cpp:67-71 | of names that differ in case only the least answers |
| `HttpParser.OptionsOfHead` | source/http_parser.cpp:19-25 | bytes after the head change no option but the body |
| `Reply.ReplyGenerate` | include/reply.hpp:33-64 | the six header lines in order, a blank line and the content |
| `Reply.PrintedIsRead` | source/http_parser.cpp:11-60 | any printed head of clean headers is read back as those headers, with the content as the body |
| `Reply.BlankLineIsFirst` | source/http_parser.cpp:23-25 | the blank line of a printed head is the first in the text |
| `Reply.ReplyIsRead` | include/reply.hpp:33-64 | for NUL-free content the parsed reply has the content as body and its length as Content-Length |
| `Reply.ReplyHeadersAreRead` | include/reply.hpp:33-64 | the other five headers are read back with their values |
| `Reply.TrimIs` | source/http_parser.cpp:36-38 | trimming takes all white space from both sides and nothing else |
| `HttpText.AtoiReads` | source/front_conn.cpp:143 | atoi skips white space, takes one sign, and reads the digits up to the first other byte |
| `BackendServer.BackendServer.RequireBackendConn` | source/backend_server.cpp:86-107 | terminates with the first working connection from the index site modulo the number of connections on, going round, or none if and only if none works |
| `BackendServer.BackendServer.OnCheckTimeout` | source/backend_server.cpp:137-176 | keeps exactly the connections without an error, in order |
| `BackendServer.HealthyConcat` | source/backend_server.cpp:158-175 | pruning keeps or drops each connection by itself, in its place |
| `BackendServer.BackendServer.AcceptHandler` | source/backend_server.cpp:51-68 | a new connection goes to the end, working |
| `BackendServer.PruningKeepsWorking` | source/backend_server.cpp:158-175 | pruning keeps the working connections in order, so it never changes whether a site can be served |

## Left out

- Doubles: their text and rounding are the parameter `Libc`, and minus zero is not told from zero; the round trip is for the doubles that `Libc` prints so that they can be read back (`PrintsBack`), which subnormal ones are not, as strtod sets ERANGE for them.
- The wording of error messages: a datatype names each failure and the byte it shows.
- Accessors, constructors and `has_shape` of json11, and `show_conns_info`: single expressions and printing.
- HttpServer.AcceptHandler: does not model the assertion on the reference count at `source/http_server.cpp:116`, which the code does not ensure.
- HttpServer.TimingWheelCheck: one undisturbed tick; interleaved ticks are steps of Registry. The same holds for ManagePass.
- Registry.CapacityIsKept: the maximum is fixed at start-up; changing it while serving is not modelled.
- Connection objects of the registry are numbers with a status and a touch time, so that the state machine can speak of freed ones; the buffers of a connection are in FrontConn.
- The cache limit is an integer division, which is what the product with 0.3 in double precision truncates to for every maximum below 2^50; for larger ones it may differ.
- Whether the manager ever wakes: a notification sent while it is not waiting is lost, so only safety is proved of it.
- Sockets, asio scheduling, strands, timers, signals, logging and `getrlimit`.
- FrontConn.HandleBody: does not model the push of a /bb body to a backend connection (`source/front_conn.cpp:262`), which changes no reply, and takes what the outbound fetch gives as the parameter `BackendAnswer`.
- Overlapping writes on one connection, and the unlocked use of the backend list by two threads: each is modelled as sequential.
- FrameReader.SyncReadFrom: a prefix that is no int, for which C leaves atoi undefined, is excluded by a precondition, and so is a buffer that is not zeroed or has fewer than twenty bytes. A call that reads past its buffer is followed no further than that.
- FrontConn.ReadHeadHandler: a Content-Length that is no int is excluded in the same way, and in DispatchHead and BeginBody.
- HttpParser.InsertRequest: a URI of slashes only makes the program read before the start of the string; the model stops at the empty string. The regular expression is a direct definition.
- The overload of `reply_generate` that takes a char array (`include/reply.hpp:66-97`): its length and its content need not agree.
- Long functions of the program are several methods here, one for a loop or a branch.
