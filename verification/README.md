# netcore: a verified model of the protocol kernels

netcore is a C++ HTTP and WebSocket server with a small client. Around its sockets it contains a set of kernels that
compute without I/O: parsers that are fed whatever bytes have arrived, printers for numbers and frames, a hash, a timer
heap, a task queue and a lock-free ring. This project models those kernels in Dafny and proves what they are for.

The code is read as it is. An object whose methods update its fields is a class, an in-place algorithm works on an
array, a loop is a loop with invariants, and a protocol between threads or between objects is a state machine over its
atomic steps. Each imperative member is tied to a function of its inputs, and the main results are proved about that
function for all inputs, all cuts of a stream, or all runs. Unsigned wrap-around, truncation and fixed-point error are
written out.

| files | what they hold | main results |
|---|---|---|
| `MultipartMachine`, `MultipartParser`, `MultipartContent`, `MultipartParts`, `MultipartStray`, `MultipartRoundTrip`, `MultipartForm` | the streaming multipart/form-data parser, its reader and the client's printer | cut invariance if and only if every header line has a colon; the Boyer-Moore skip is the byte-by-byte scan; the parser object refines the byte machine on every stream and `feed` terminates; the exact streams on which it throws and on which it hands over bytes that are not of the part; a printed body is read back, under any cuts, if and only if the content holds neither the delimiter followed by CR nor the delimiter followed by two hyphens; a form of any number of parts comes back as exactly those parts if and only if each content is one that its place allows |
| `Decimal`, `Jeaiii`, `Itoa` | the two fast integer printers | the canonical numeral for every 32-bit and 64-bit value, without overflow of an intermediate |
| `Chunked`, `ChunkedDecoder`, `ChunkedGrammar` | the resumable chunked decoder and the chunk printer | cut invariance; round trip; the in-place decoder refines the byte decoder; the bodies decoded completely are exactly a grammar, and each of the three answers has its exact condition |
| `Sha1Spec`, `Sha1`, `Sha1Context` | SHA-1 with a 16-word circular schedule, streaming and padding | any cutting of a message gives the digest of FIPS 180-4 |
| `HttpParser`, `HttpScan`, `HttpGrammar`, `HttpAnswers` | request, response and header-block parsing | verdicts are stable under extension, shorter prefixes ask for more, the accepted heads and their fields are exactly a grammar, and -2 is answered exactly where more bytes can help or the version or status is short |
| `LockFreeQueue` | the ring as interleaved atomic steps | first-in first-out between the calls, exact refusals, slot safety and counter accounting in every interleaving |
| `TaskQueue`, `TaskLifetime` | the intrusive queue, one scheduler round, the timeout-task protocol | a round calls exactly what was queued; no use after free in any run; exactly the expired tasks are leaked, every other is freed in time once its awaiter is gone |
| `HeapTimer` | the indexed binary heap of timers | heap order and exact references, with the exact condition under which `siftup_` terminates; `tick` fires the due timers in order, against a clock that goes on; every run of the server's uses with one timeout and an advancing clock is safe |
| `Utf8`, `WebSocket`, `Base64` | wire codecs | exact acceptance of UTF-8; frame headers and masked payloads read back; both encoders agree and the decoder inverts them; what the decoder answers on every string |

Verify everything with `dafny verify dfyconfig.toml`.

## Where the code does not do what one would expect

* A header line without a colon. The parser's counter is not reset by such a line and is carried into the part's data.
  `CutInvarianceIffColons` shows that cut invariance holds exactly when no such line ends, and `ColonMissingExample` is
  a stream that shows it; state, flags and counter never depend on the cuts: `ControlIsCutInvariant`. The parser throws
  exactly when such a line has more name bytes than the lookbehind buffer has places and a data byte follows it:
  `ThrowsIff`, with `ThrowExample`. It hands over places of the lookbehind buffer that it has not written for the part
  exactly when a data byte does not go on with the delimiter at the carried counter: `LeftoverIff`, with
  `LeftoverExample`. A counter of 4 to 8 more than the delimiter's length is never cleared again, so that no delimiter is
  seen any more: `StuckForever`.
* The part flag is cleared only by a complete part delimiter. After the delimiter, CR and something else in the content,
  the closing delimiter is not seen. `FlagSetIff` says which contents leave the flag set, `ReadBackIffClean` which are
  read back, and `RoundTrip` and `ReadUpload` say the same of whole printed bodies, under any cuts.
  `DelimiterAndCrIsNotReadBack` and `DelimiterAndOtherIsReadBack` are a content on either side. Before the delimiter of
  another part a flag left set does no harm, so more contents come through there, and with it set a hyphen and LF after
  the delimiter begin a part: `NextIffPasses`.
* A failed delimiter candidate is given back and only its last byte is looked at again. That finds the delimiter after
  every content that does not contain it if and only if the delimiter's first byte occurs in it once:
  `FindsDelimiterIffFirstByteUnique`. A delimiter that starts with a hyphen is missed right after itself:
  `RuleHoldsIffNoHyphen`. The server's delimiters start with CR, and no token holds one.
* A stream that is refused inside a header name has shown its callbacks the part of the name before the last cut, so
  its events depend on the cuts; otherwise they do not: `RefusedEventsIff`, with `RefusedNameExample`.
* A version or a status is not looked at before nine or four bytes of it are there, so a head that can no longer become
  valid is answered -2 until then: `RequestAnswer` and `ResponseAnswer` have this as the only exception.
* `siftup_` compares an unsigned index with zero, so its loop is left only through its break. `SiftUp` answers whether
  it gets there: exactly when it starts at the root or the root is strictly earlier than the node that moves. `SafeAdd`
  and `SafeDelete` say what that means for callers. `AddTwiceAtOnce` and `RenewAllAtOnce` are runs that fail, the first
  in `add` and the second in `doWork` after safe additions. `Serve` is the server's normal use, which never fails.
* `adjust` only sifts down. `Adjust` states that heap order survives if and only if the new deadline is not before the
  parent's; a later deadline always qualifies. `AdjustBackwards` is a deadline that does not.
* `GetNextTick` reads the clock again after its tick, and its test for a negative answer compares an unsigned number.
  `GetNextTick` states that the answer, when it fits, is zero or negative with timers left if and only if a timer has
  become due between the two readings. `NextTickMissed` is a case where it is -1, the answer for "no timers".
* A task whose awaiter is found expired is neither queued again nor freed: `ExpiredIsReachable` and
  `ExpiredTaskIsNeverFreed`. Every other task can still be freed, and is once enough tasks have been called:
  `FreeableIffNotExpired`, `OrphanIsFreedInTime`.
* `parse_header` reads the whole header as soon as six bytes have been received. `FieldsSettledIff` says exactly when
  all that it reads has been received, `OverreadExample` is six bytes for which it has not, and `AnswerIsSettled` says
  that the answer, unlike the fields, never depends on what lies beyond.
* `Base64::Decode` indexes its table with a signed char: `LeavesTableIff` says for which strings that leaves the
  table, `LeavesTableExamples` has one of them. `MisplacedPadIff` says for which it gives the null result.

## Model

| member | source | states |
|---|---|---|
| `MultipartMachine.RunValid` | include/netcore/multipart_parser.hpp:353-468 | in every reachable state at most the delimiter and one byte are held back, or, with a carried counter, no more than the lookbehind buffer has places |
| `MultipartMachine.Consumed` | include/netcore/multipart_parser.hpp:101-210 | the offset returned is that of the first byte the machine refuses or throws at, and the whole length when there is none |
| `MultipartMachine.NameByteIff` | include/netcore/multipart_parser.hpp:145-166 | a header name is made of letters and hyphens |
| `MultipartMachine.ThenInPart` | include/netcore/multipart_parser.hpp:353-468 | each data byte extends the candidate, gives back exactly the held bytes and is read again, begins the next part, or ends the stream |
| `MultipartMachine.RunConcat` | include/netcore/multipart_parser.hpp:85-221 | reading two pieces one after the other is reading them joined |
| `MultipartMachine.FeedAllIsRun` | include/netcore/multipart_parser.hpp:85-221 | a good stream fed in any cuts gives the events and the state of one pass over its bytes |
| `MultipartMachine.RefusalIsCutInvariant` | include/netcore/multipart_parser.hpp:85-221 | under every cutting the same byte is refused, so the return values add up to its offset, and the events are those before it, but for a header name that is refused |
| `MultipartMachine.RefusedEventsIff` | include/netcore/multipart_parser.hpp:135-167 | the events of a refused stream are the same under every cutting if and only if it is not refused inside a header name |
| `MultipartMachine.ColonMissingBreaksCuts` | include/netcore/multipart_parser.hpp:135-144 | a line that ends without a colon makes two cuttings of the same bytes show different events |
| `MultipartMachine.CutInvarianceIffColons` | include/netcore/multipart_parser.hpp:85-221 | for every stream that is not refused, cutting never matters if and only if every header line has a colon |
| `MultipartMachine.ScanFree` | include/netcore/multipart_parser.hpp:373-467 | data without the delimiter is handed over in order, holding back at most a proper prefix of the delimiter |
| `MultipartMachine.SkipIsScan` | include/netcore/multipart_parser.hpp:358-371 | skipping a delimiter's length is the same as reading those bytes one by one |
| `MultipartContent.ScanClean` | include/netcore/multipart_parser.hpp:373-467 | content in which no delimiter is followed by CR or two hyphens is handed over in order, and the part flag stays clear |
| `MultipartContent.ReachesDelimiter` | include/netcore/multipart_parser.hpp:373-467 | the delimiter is recognised right after such content |
| `MultipartContent.StaleFlagHidesTheEnd` | include/netcore/multipart_parser.hpp:385-425 | once the part flag is set, no bytes end the stream before another part has begun and its headers have been read |
| `MultipartContent.StaleFeedAll` | include/netcore/multipart_parser.hpp:385-425 | the same under any cutting of the stream |
| `MultipartContent.EndTried` | include/netcore/multipart_parser.hpp:389-421 | the first delimiter followed by two hyphens ends the stream with the data before it, and what follows is ignored |
| `MultipartContent.FlagSetIff` | include/netcore/multipart_parser.hpp:385-403 | while content has neither begun a part nor ended the stream, the part flag is set if and only if the delimiter followed by CR occurs in it |
| `MultipartContent.ReadBackIffClean` | include/netcore/multipart_parser.hpp:353-468 | content before the closing delimiter is read back if and only if neither the delimiter followed by CR nor the delimiter followed by two hyphens starts in it |
| `MultipartContent.FreeIsClean` | include/netcore/multipart_parser.hpp:353-468 | content without the delimiter is such content |
| `MultipartContent.DelimiterAndCrIsNotReadBack` | include/netcore/multipart_parser.hpp:397-409 | the delimiter followed by CR and any byte is content that is not read back |
| `MultipartContent.DelimiterAndOtherIsReadBack` | include/netcore/multipart_parser.hpp:385-396 | the delimiter followed by any byte but CR and hyphen is content that is read back |
| `MultipartContent.RuleHoldsIffNoHyphen` | include/netcore/multipart_parser.hpp:385-425 | among delimiters whose first byte does not recur, that rule is right for all contents if and only if the delimiter does not start with a hyphen |
| `MultipartParser.Parser.constructor` | include/netcore/multipart_parser.hpp:64-74 | a new parser stands at the start, with the delimiter's bytes indexed and room for it and 8 more bytes |
| `MultipartParser.Parser.DataCallback` | include/netcore/multipart_parser.hpp:305-320 | hands over exactly the bytes since the mark and clears or rebases it; an unmarked range hands over nothing |
| `MultipartParser.Parser.Callback` | include/netcore/multipart_parser.hpp:294-303 | appends one call to what the callbacks have been given |
| `MultipartParser.Parser.SkipData` | include/netcore/multipart_parser.hpp:358-371 | the skip loop stays in the buffer and passes only bytes that are data |
| `MultipartParser.Parser.MatchByte` | include/netcore/multipart_parser.hpp:373-440 | for every counter, carried or not, the branches choose what the byte machine chooses: go on, give back, begin a part, end the stream, or stay; with the flags and callbacks of each |
| `MultipartParser.Parser.MatchPartByte` | include/netcore/multipart_parser.hpp:373-467 | throws if and only if the machine overflows on that byte; otherwise steps on, or gives the candidate back and stays on the byte with the counter at 0, as the machine does |
| `MultipartParser.Parser.KeepOrGiveBack` | include/netcore/multipart_parser.hpp:442-467 | throws if and only if the counter is past the lookbehind buffer; otherwise the byte is stored behind the candidate, or exactly the stored bytes are handed over as data and the byte is read again |
| `MultipartParser.Parser.ProcessPartData` | include/netcore/multipart_parser.hpp:353-468 | skip, match and lookbehind together keep what remains to be read equal to the machine's run on it |
| `MultipartParser.Parser.FirstLineByte` | include/netcore/multipart_parser.hpp:107-134 | follows the machine on the first line, or refuses exactly where it does |
| `MultipartParser.Parser.HeaderNameByte` | include/netcore/multipart_parser.hpp:135-167 | follows the machine on a header name, its colon and the CR that ends the headers, or refuses exactly where it does |
| `MultipartParser.Parser.NameByteStep` | include/netcore/multipart_parser.hpp:135-167 | the tests on a byte of a name in their order: which bytes are refused, what is handed over, where the mark and the counter go |
| `MultipartParser.Parser.HeaderValueByte` | include/netcore/multipart_parser.hpp:168-181 | follows the machine on a header value, handing over also an empty one |
| `MultipartParser.Parser.ValueByteStep` | include/netcore/multipart_parser.hpp:168-181 | leading spaces are skipped, the mark is set at the first other byte, and CR hands over what is marked |
| `MultipartParser.Parser.LineEndByte` | include/netcore/multipart_parser.hpp:182-206 | follows the machine on the LF after a value, the LF after the headers, and bytes after the end |
| `MultipartParser.Parser.LineEndStep` | include/netcore/multipart_parser.hpp:182-206 | anything but LF is refused, except after the end |
| `MultipartParser.Parser.StartPartData` | include/netcore/multipart_parser.hpp:199-201 | a part's data starts with the counter that the last header line left, as the machine does |
| `MultipartParser.Parser.HandOver` | include/netcore/multipart_parser.hpp:212-214 | at a buffer's end exactly the marked bytes are handed over and the marks move to the start of the next buffer |
| `MultipartParser.PendingIsFlush` | include/netcore/multipart_parser.hpp:212-214 | handing those over is what the machine does at the end of a buffer |
| `MultipartParser.MatchFollows` | include/netcore/multipart_parser.hpp:373-467 | after a data byte the parser, with or without a carried counter, is where the machine is, or throws where it does |
| `MultipartParser.EndFollows` | include/netcore/multipart_parser.hpp:212-220 | at the end of a buffer the parser is where the machine is at the start of the next |
| `MultipartParser.Parser.Iterate` | include/netcore/multipart_parser.hpp:101-210 | one turn of the loop keeps the relation to the machine and either moves on or clears a positive counter; it refuses or throws only where the machine does |
| `MultipartParser.Parser.Scan` | include/netcore/multipart_parser.hpp:101-220 | the loop terminates although it steps back, returns where the machine stops and throws if and only if the machine overflows |
| `MultipartParser.Parser.Feed` | include/netcore/multipart_parser.hpp:85-221 | for every buffer after any stream: `feed` ends in the state of the byte machine, hands over its events (a leftover place as some byte), returns where it stops and throws if and only if its counter runs past the lookbehind buffer |
| `MultipartParser.Parser.FeedStream` | include/netcore/connection.hpp:531-534 | any sequence of calls leaves the callbacks with the events of the machine, and throws if and only if it overflows; for a good stream they are those of one pass over the joined bytes |
| `MultipartStray.ControlIsCutInvariant` | include/netcore/multipart_parser.hpp:85-221 | for every stream, refused or not, state, flags and counter are the same under every cutting |
| `MultipartStray.TakenIsConsumed` | include/netcore/multipart_parser.hpp:85-221 | for every stream the return values of the calls add up to where one pass over the joined bytes stops |
| `MultipartStray.BareLineLeads` | include/netcore/multipart_parser.hpp:135-144 | a line of k name bytes without a colon leaves the counter at k at the start of the data |
| `MultipartStray.ThrowsIff` | include/netcore/multipart_parser.hpp:442-449 | for every stream, under any cuts: it overflows if and only if a line without a colon has more than 8 name bytes beyond the length of the delimiter, and a data byte follows it |
| `MultipartStray.FeedUntilThrown` | include/netcore/multipart_parser.hpp:85-221 | the parser object throws on exactly those streams |
| `MultipartStray.LeftoverIff` | include/netcore/multipart_parser.hpp:457-467 | for every stream, under any cuts: places of the lookbehind buffer not written for the part are handed over if and only if a data byte does not go on with the delimiter at a carried counter |
| `MultipartStray.LeftoverIsCutInvariant` | include/netcore/multipart_parser.hpp:457-467 | whether that happens does not depend on the cuts, from any state |
| `MultipartStray.FirstByteGivesBackIff` | include/netcore/multipart_parser.hpp:373-467 | right after the line, the condition on that byte for every length of the name: not the delimiter's byte at the counter, neither CR nor hyphen behind a whole delimiter, and so on up to three bytes past it |
| `MultipartStray.CarriedDelimiter` | include/netcore/multipart_parser.hpp:385-440 | with a name as long as the delimiter, or two or three bytes longer, data that starts like the rest of a delimiter begins a part or ends the stream |
| `MultipartStray.StuckForever` | include/netcore/multipart_parser.hpp:373-456 | with a counter of 4 to 8 beyond the delimiter every later byte is swallowed up to the end of its buffer, then handed over as data, and nothing is recognised |
| `MultipartStray.StuckAfter` | include/netcore/multipart_parser.hpp:135-144 | a line of that many name bytes leads there |
| `MultipartStray.LeftoverExample` | include/netcore/multipart_parser.hpp:457-467 | boundary "b" and --b CR LF A CR LF X, under any cuts: no exception, and an unwritten place is handed over |
| `MultipartStray.ThrowExample` | include/netcore/multipart_parser.hpp:442-449 | the same with fourteen letters in place of A: the exception is thrown |
| `MultipartRoundTrip.ReaderSeesJoinedBytes` | include/netcore/multipart_reader.hpp:81-134 | the reader's state depends only on the joined bytes of the callbacks, not on how they were split |
| `MultipartRoundTrip.Body` | core/http_client.hpp:628-643 | the printed body is as long as the size the client announces |
| `MultipartRoundTrip.DispositionText` | core/http_client.hpp:1081-1087 | the printed header name is the text Content-Disposition |
| `MultipartRoundTrip.ValueText` | core/http_client.hpp:1081-1087 | the printed value starts with the text form-data; name="test"; filename=" |
| `MultipartRoundTrip.RunFileStart` | core/http_client.hpp:1081-1087 | the printed part head is read as one Content-Disposition header, leaving the counter at 0 |
| `MultipartRoundTrip.RunHeader` | include/netcore/multipart_parser.hpp:135-189 | a printed header line is handed over as its name and its value |
| `MultipartRoundTrip.RunContent` | include/netcore/multipart_parser.hpp:353-468 | content without the delimiter, then the delimiter: all of the content is data and the delimiter is recognised |
| `MultipartRoundTrip.ReadOnePart` | include/netcore/multipart_reader.hpp:86-134 | the reader delivers one part with the header and the content of the event sequence |
| `MultipartRoundTrip.RoundTrip` | core/http_client.hpp:628-643 | the printed body in any cuts stops in END and yields one part with exactly that content and that Content-Disposition, if and only if neither the delimiter followed by CR nor the delimiter followed by two hyphens starts in the content |
| `MultipartRoundTrip.FreeContentIsRecovered` | core/http_client.hpp:628-643 | so every content without the delimiter is recovered |
| `MultipartRoundTrip.ReadUpload` | include/netcore/connection.hpp:520-545 | the parser object, fed the printed body in any pieces, and the reader behind it together yield the printed part if and only if the content is such content |
| `MultipartParts.CleanThenNext` | include/netcore/multipart_parser.hpp:385-409 | after clean content the delimiter and CR LF hand over that content, end the part and begin the next, with the part flag clear |
| `MultipartParts.PassesThenNext` | include/netcore/multipart_parser.hpp:385-409 | so they do after content in which a CR has left the flag set, if nothing after it begins a part |
| `MultipartParts.NotPassing` | include/netcore/multipart_parser.hpp:385-425 | any other content is cut short: a part begins or the stream ends inside it |
| `MultipartParts.NextIffPasses` | include/netcore/multipart_parser.hpp:353-468 | before the delimiter of another part, content is handed over whole if and only if it passes |
| `MultipartForm.RunHeaders` | include/netcore/multipart_parser.hpp:135-197 | any block of header lines, empty values included, is handed over name by name and value by value |
| `MultipartForm.ReadParts` | include/netcore/multipart_reader.hpp:81-134 | the events of a list of parts give the reader's user exactly those parts in order |
| `MultipartForm.WholeIsSeen` | include/netcore/multipart_parser.hpp:85-221 | a form whose contents all come through gives, under any cuts, exactly the events of its parts and ends |
| `MultipartForm.HeadedFeedAll` | include/netcore/multipart_parser.hpp:85-221 | under any cuts, once a part has ended nothing changes it any more |
| `MultipartForm.FormIff` | include/netcore/multipart_parser.hpp:85-221 | a printed form of any number of parts, under any cuts, comes back as exactly those parts in order, then the end, if and only if every content but the last passes and the last is clean |
| `MultipartForm.ReadUploadedForm` | include/netcore/connection.hpp:520-545 | the parser object and the reader together read a form back in exactly those cases |
| `MultipartRoundTrip.ColonMissingExample` | include/netcore/multipart_parser.hpp:138-148 | a stream of seven bytes whose events depend on the cuts |
| `MultipartRoundTrip.RefusedNameExample` | include/netcore/multipart_parser.hpp:135-167 | boundary "b" and --b CR LF A ! is refused with events that depend on the cuts |
| `MultipartRoundTrip.FindsDelimiterIffFirstByteUnique` | include/netcore/multipart_parser.hpp:457-467 | the delimiter is found after every content without it if and only if its first byte does not recur in it |
| `Decimal.NumeralIsCanonical` | core/itoa_jeaiii.hpp:74-97 | the numeral has the value of the number, only digits, and a leading zero only for 0 |
| `Decimal.NumeralSplit` | core/itoa_jeaiii.hpp:112-126 | a numeral is the numeral of the upper digits followed by the lower digits padded with zeros |
| `Jeaiii.HighWord` | core/itoa_jeaiii.hpp:70-72 | the upper word of a suitable fixed-point number is the quotient |
| `Jeaiii.LowWord` | core/itoa_jeaiii.hpp:71-72 | multiplying the lower word by 10 or 100 is a suitable fixed-point number for the remainder |
| `Jeaiii.SmallStart` | core/itoa_jeaiii.hpp:70-70 | for up to 5 digits the first multiplication gives a suitable fixed-point number and stays below 2^64 |
| `Jeaiii.LargeStart` | core/itoa_jeaiii.hpp:70-70 | the same for 6 to 10 digits, with the shift and the rounding terms |
| `Jeaiii.StorePair` | core/itoa_jeaiii.hpp:66-69 | stores the two digits of a number below 100 |
| `Jeaiii.FirstPair` | core/itoa_jeaiii.hpp:70-70 | stores the leading two digits and leaves the fixed-point remainder |
| `Jeaiii.NextPair` | core/itoa_jeaiii.hpp:72-72 | stores the next two digits and leaves the fixed-point remainder |
| `Jeaiii.LastDigit` | core/itoa_jeaiii.hpp:71-71 | stores the last digit |
| `Jeaiii.Pairs` | core/itoa_jeaiii.hpp:76-83 | stores all remaining digits, padded with zeros |
| `Jeaiii.WriteDigits` | core/itoa_jeaiii.hpp:74-87 | writes exactly n + 1 digits of the number and returns the place after them |
| `Jeaiii.WriteU32` | core/itoa_jeaiii.hpp:92-97 | writes the canonical numeral of every 32-bit number, at most 10 bytes, touching no other byte |
| `Jeaiii.WriteI32` | core/itoa_jeaiii.hpp:99-103 | the same for every signed 32-bit number, including the least |
| `Jeaiii.WriteU64` | core/itoa_jeaiii.hpp:105-127 | writes the canonical numeral of every 64-bit number, at most 20 bytes, touching no other byte |
| `Jeaiii.WriteI64` | core/itoa_jeaiii.hpp:129-132 | the same for every signed 64-bit number, including the least, at most 20 bytes |
| `Itoa.Split2` | include/netcore/itoa.hpp:104-108 | multiplying by the inverse is exact division by 100 for every 16-bit number, and fits 32 bits |
| `Itoa.Split4` | include/netcore/itoa.hpp:104-108 | multiplying by the inverse is exact division by 10000 for every 32-bit number, and fits 64 bits |
| `Itoa.TailByte` | include/netcore/itoa.hpp:172-172 | writes two digits |
| `Itoa.TailShort` | include/netcore/itoa.hpp:163-169 | writes four digits with leading zeros |
| `Itoa.HeadByte` | include/netcore/itoa.hpp:152-156 | writes the numeral of a number below 100 |
| `Itoa.HeadShort` | include/netcore/itoa.hpp:136-149 | writes the numeral of a number below 10000 |
| `Itoa.WriteU32` | include/netcore/itoa.hpp:179-199 | writes the canonical numeral of every 32-bit number |
| `Itoa.WriteI32` | include/netcore/itoa.hpp:226-258 | writes the canonical numeral of every signed 32-bit number; the minus sign stored for others is overwritten |
| `Chunked.DecodeValid` | include/netcore/picohttpparser.h:557-670 | the size stays below 16 to the number of digits, output and remainder fit in the input, the remainder is a suffix of it |
| `Chunked.DecodeConcat` | include/netcore/picohttpparser.h:82-90 | decoding a prefix that is incomplete and then the rest is decoding both joined; after a verdict the rest is only appended to the remainder |
| `Chunked.CutInvariance` | include/netcore/picohttpparser.h:82-90 | any sequence of calls gives the output, verdict, state and remainder of one call on the joined bytes |
| `Chunked.DecodeHexIff` | include/netcore/picohttpparser.h:543-555 | a byte has a value exactly when it is at that place of 0123456789abcdef or 0123456789ABCDEF |
| `Chunked.DecodeToHex` | include/netcore/utils.hpp:429-433 | the printed size is read back as the size |
| `Chunked.HexDigitIs` | include/netcore/utils.hpp:429-433 | a digit is printed as the one at its place of 0123456789abcdef |
| `ChunkedGrammar.ToHexIs` | include/netcore/utils.hpp:429-433 | the printed size is the number in lower-case digits without a leading zero |
| `Chunked.DecodeChunk` | include/netcore/response.hpp:291-300 | a printed chunk is decoded to its data and leaves a fresh decoder |
| `Chunked.DecodeEnd` | include/netcore/response.hpp:302-306 | the last chunk completes; the final CRLF is consumed or left according to `consume_trailer` |
| `Chunked.RoundTrip` | include/netcore/response.hpp:287-308 | printed blocks in any cuts decode to the joined blocks, leaving what follows, and the final CRLF unless trailers are consumed |
| `ChunkedGrammar.SizeLineDecoded` | include/netcore/picohttpparser.h:563-603 | a size line of 1 to 16 digits and any extension is read as its value |
| `ChunkedGrammar.TooManyDigits` | include/netcore/picohttpparser.h:577-580 | a seventeenth digit is refused |
| `ChunkedGrammar.BodyDecoded` | include/netcore/picohttpparser.h:557-670 | chunks, last chunk and trailer in any spelling decode to the content of the chunks, leaving what follows |
| `ChunkedGrammar.BodyRead` | include/netcore/picohttpparser.h:557-670 | what is decoded completely starts with such a body |
| `ChunkedGrammar.CompleteIff` | include/netcore/picohttpparser.h:557-670 | a fresh decoder completes with an output and a remainder if and only if a body with that content comes before the remainder |
| `ChunkedGrammar.CanComplete` | include/netcore/picohttpparser.h:557-670 | from every reachable decoder some bytes complete the body |
| `ChunkedGrammar.DecoderAnswers` | include/netcore/picohttpparser.h:557-670 | complete exactly when a body comes first, otherwise incomplete exactly when more bytes can make it one, and -1 in all other cases |
| `ChunkedDecoder.Move` | include/netcore/picohttpparser.h:608-618 | an overlapping move downwards copies the bytes and nothing above or below changes |
| `ChunkedDecoder.InPlace.SizeState` | include/netcore/picohttpparser.h:563-583 | reads the size digits as the byte decoder does, up to a verdict or the extension state |
| `ChunkedDecoder.InPlace.ExtState` | include/netcore/picohttpparser.h:585-603 | skips the extension as the byte decoder does and chooses data, trailer or completion |
| `ChunkedDecoder.InPlace.DataState` | include/netcore/picohttpparser.h:605-621 | moves the available data down in one step, as the byte decoder does in many |
| `ChunkedDecoder.InPlace.CrlfState` | include/netcore/picohttpparser.h:623-636 | reads the line end after the data as the byte decoder does |
| `ChunkedDecoder.InPlace.LineHeadState` | include/netcore/picohttpparser.h:637-646 | reads the start of a trailer line as the byte decoder does |
| `ChunkedDecoder.InPlace.LineMiddleState` | include/netcore/picohttpparser.h:648-657 | skips the rest of a trailer line as the byte decoder does |
| `ChunkedDecoder.InPlace.DecodeInPlace` | include/netcore/picohttpparser.h:557-670 | one call leaves the decoded bytes in front, the undecoded tail directly after them, the decoder state and the return value of the byte decoder, and does not touch bytes past the given size |
| `ChunkedDecoder.DecodePieces` | include/netcore/picohttpparser.h:82-90 | calling the in-place decoder piece after piece gives the output, verdict and undecoded tail of the byte decoder on the joined pieces |
| `ChunkedDecoder.DecodePrinted` | include/netcore/response.hpp:287-308 | printed blocks, decoded in place under any cutting, are the joined blocks, with the tail that should be left |
| `Sha1.RolIsRotate` | include/netcore/sha1.hpp:22-24 | `rol` is rotation |
| `Sha1.Choices` | include/netcore/sha1.hpp:32-70 | the code's forms of the choice and majority functions are those of the standard |
| `Sha1.BlkIsW` | include/netcore/sha1.hpp:26-30 | the circular 16-word schedule (section 6.1.3 of FIPS 180-4) produces word t of the 80-word schedule (section 6.1.2) |
| `Sha1.RoundInPlace` | include/netcore/sha1.hpp:32-70 | the in-place update with renamed registers is the round function |
| `Sha1.R0` | include/netcore/sha1.hpp:32-37 | rounds 0 to 15: one round of the standard on the renamed registers |
| `Sha1.R1` | include/netcore/sha1.hpp:40-45 | rounds 16 to 19, also advancing the schedule |
| `Sha1.R2` | include/netcore/sha1.hpp:48-53 | rounds 20 to 39 |
| `Sha1.R3` | include/netcore/sha1.hpp:56-61 | rounds 40 to 59 |
| `Sha1.R4` | include/netcore/sha1.hpp:64-69 | rounds 60 to 79 |
| `Sha1.Transform` | include/netcore/sha1.hpp:82-175 | the unrolled transform adds the result of the 80 standard rounds to the digest |
| `Sha1Context.MakeBlock` | include/netcore/sha1.hpp:72-79 | a 64-byte buffer becomes the 16 big-endian words of the standard |
| `Sha1Context.OneLastBlock` | include/netcore/sha1.hpp:228-243 | with fewer than 56 bytes left, the padding of section 5.1.1 is one block |
| `Sha1Context.TwoLastBlocks` | include/netcore/sha1.hpp:228-243 | with 56 or more bytes left it is two blocks, the second with zeros and the length |
| `Sha1Context.Context.constructor` | include/netcore/sha1.hpp:190-198 | a new context has absorbed the empty message |
| `Sha1Context.Context.Fill` | include/netcore/sha1.hpp:206-209 | copies as much of the piece as fits into the buffer |
| `Sha1Context.Context.HashBuffer` | include/netcore/sha1.hpp:214-218 | a full buffer is hashed and emptied |
| `Sha1Context.Context.Update` | include/netcore/sha1.hpp:201-220 | absorbs exactly the piece after what was absorbed before |
| `Sha1Context.Context.PadBuffer` | include/netcore/sha1.hpp:229-233 | appends 0x80 and zeros |
| `Sha1Context.Context.HashLast` | include/netcore/sha1.hpp:234-245 | one or two last blocks complete the hash of the padded message |
| `Sha1Context.Context.Finish` | include/netcore/sha1.hpp:223-254 | the digest of everything absorbed, by FIPS 180-4 |
| `Sha1Context.HashPieces` | include/netcore/sha1.hpp:190-254 | init, any sequence of updates, and finish give the digest of the joined message |
| `HttpParser.RequestStable` | include/netcore/picohttpparser.h:394-455 | a request verdict of -1 or n is the verdict, with the same fields, on every extension of the buffer |
| `HttpParser.ResponseStable` | include/netcore/picohttpparser.h:457-511 | the same for responses |
| `HttpParser.ParseHeadersStable` | include/netcore/picohttpparser.h:326-392 | the same for header blocks |
| `HttpParser.RequestPrefixes` | include/netcore/picohttpparser.h:394-455 | when the answer is n, every prefix shorter than n answers -2 and every other prefix answers n |
| `HttpParser.ResponsePrefixes` | include/netcore/picohttpparser.h:457-511 | the same for responses |
| `HttpParser.HeadersPrefixes` | include/netcore/picohttpparser.h:513-540 | the same for header blocks |
| `HttpScan.AdvanceToken` | include/netcore/picohttpparser.h:130-153 | the scan stops at the first space, control byte or end |
| `HttpScan.FindControl` | include/netcore/picohttpparser.h:208-240 | the scan of eight bytes at a time finds the same first control byte as the plain scan |
| `HttpScan.GetTokenToEol` | include/netcore/picohttpparser.h:192-258 | the rest of the line up to its CR LF or LF, or a verdict |
| `HttpScan.ScanHeaderName` | include/netcore/picohttpparser.h:343-386 | a header name, a continuation line or a verdict |
| `HttpScan.ScanHeaders` | include/netcore/picohttpparser.h:326-392 | the loop fills in the headers that the recursive reading gives, within the given capacity |
| `HttpScan.ScanRequest` | include/netcore/picohttpparser.h:394-428 | the request parser answers what the stable verdicts are proved of |
| `HttpScan.ScanResponse` | include/netcore/picohttpparser.h:457-486 | the same for responses |
| `HttpGrammar.TextIff` | include/netcore/picohttpparser.h:192-258 | the rest of a line is read as some text if and only if that text and CR LF or LF are there |
| `HttpGrammar.TokenCharIff` | include/netcore/picohttpparser.h:155-162 | a token is made of digits, letters and the 15 marks of section 3.2.6 of RFC 7230 |
| `HttpGrammar.LineIsRead` | include/netcore/picohttpparser.h:343-386 | every spelling of a header or continuation line is read as its name and value |
| `HttpGrammar.ReadIsLine` | include/netcore/picohttpparser.h:343-386 | what is read as a header line is a spelling of it |
| `HttpGrammar.HeadersAt` | include/netcore/picohttpparser.h:326-392 | every spelling of a header block is read as its headers in order |
| `HttpGrammar.HeadersRead` | include/netcore/picohttpparser.h:326-392 | what is read as a header block is a spelling of it, its headers within the capacity |
| `HttpGrammar.HeadersIff` | include/netcore/picohttpparser.h:513-540 | the header parser answers n with some headers if and only if they can be said, fit, and the first n bytes spell them |
| `HttpGrammar.RequestLineIff` | include/netcore/picohttpparser.h:394-428 | a request line is read as method, path and version if and only if it is made of them, single spaces and a line end |
| `HttpGrammar.RequestIff` | include/netcore/picohttpparser.h:394-455 | the request parser answers n with some fields if and only if the first n bytes are an optional empty line and a spelling of those fields |
| `HttpGrammar.StatusIff` | include/netcore/picohttpparser.h:468-479 | a status is read if and only if its three digits and a space are there |
| `HttpGrammar.ResponseIff` | include/netcore/picohttpparser.h:457-511 | the same of responses |
| `HttpAnswers.HeadersComplete` | include/netcore/picohttpparser.h:326-392 | every header block that is answered -2 can be completed |
| `HttpAnswers.HeadersAnswer` | include/netcore/picohttpparser.h:513-540 | the header parser answers n, -2 or -1 exactly when the buffer starts with a block, can become one, or neither |
| `HttpAnswers.VersionShortIff` | include/netcore/picohttpparser.h:308-324 | fewer than nine bytes are there for the version exactly when the buffer is an optional empty line, method, path and at most eight bytes |
| `HttpAnswers.RequestAnswer` | include/netcore/picohttpparser.h:394-455 | the request parser answers n exactly when the buffer starts with a request, otherwise -2 exactly when it can become one or is short of a version, and -1 in all other cases |
| `HttpAnswers.StatusShortIff` | include/netcore/picohttpparser.h:457-472 | the same of the version and the status of a response |
| `HttpAnswers.ResponseAnswer` | include/netcore/picohttpparser.h:457-511 | the response parser answers likewise, with the version or the status short as the only exceptions |
| `LockFreeQueue.RunKeeps` | lib/lockfree_queue.hpp:9-44 | the invariant over counters, cursors, slots and both threads holds after every interleaving |
| `LockFreeQueue.LoadedIsPrefixOfStored` | lib/lockfree_queue.hpp:9-44 | what has been loaded is a prefix of what has been stored, at most `size` behind, and a call that has stored or loaded holds the last of them |
| `LockFreeQueue.CallsAreLogged` | lib/lockfree_queue.hpp:9-38 | the nodes with which calls were accepted and ended account for everything stored and loaded |
| `LockFreeQueue.FirstInFirstOut` | lib/lockfree_queue.hpp:9-38 | in every interleaving the nodes that `deque` calls gave are the first ones that `queue` calls accepted, in that order, at most `size` behind |
| `LockFreeQueue.RefusedIff` | lib/lockfree_queue.hpp:10-28 | by the calls alone: `queue` is refused exactly when `size` accepted nodes have not been given, `deque` exactly when every node whose call has ended has been given |
| `LockFreeQueue.SlotsAreSafe` | lib/lockfree_queue.hpp:14-33 | no slot is overwritten before it is read, none is read before it is written |
| `LockFreeQueue.NoRace` | lib/lockfree_queue.hpp:16-33 | the two threads never access the same slot at the same time |
| `LockFreeQueue.CountersAccountForSize` | lib/lockfree_queue.hpp:9-44 | the two counters plus the operations in flight always add up to `size` |
| `LockFreeQueue.RefusalsAreJustified` | lib/lockfree_queue.hpp:10-28 | enqueuing is refused exactly when all places are taken or being given back, dequeuing exactly when nothing is announced |
| `TaskQueue.Queue.constructor` | include/netcore/basic.hpp:134-144 | an empty queue |
| `TaskQueue.Queue.Push` | include/netcore/basic.hpp:177-194 | the linked list and the tail represent the old sequence with the node appended |
| `TaskQueue.Queue.Pop` | include/netcore/basic.hpp:195-227 | the first node is unlinked, or null from an empty queue; the tail is cleared with the last node |
| `TaskQueue.Queue.Count` | include/netcore/basic.hpp:162-170 | the length of the represented sequence |
| `TaskQueue.Call` | include/netcore/core.hpp:259-261 | what a task posts is queued in posting order |
| `TaskQueue.RunRound` | include/netcore/core.hpp:263-292 | a round ends, calls exactly the tasks queued at its start, each once and in order, and leaves what they posted, themselves included, for the next round |
| `TaskLifetime.RunKeeps` | include/netcore/core.hpp:170-208 | the invariant over tasks, awaiters and the queue holds after every run of create, destroy and check steps |
| `TaskLifetime.NoUseAfterFree` | include/netcore/core.hpp:533-588 | no step of any run touches a freed task or a destroyed awaiter |
| `TaskLifetime.QueuedOnceFreedLate` | include/netcore/core.hpp:533-588 | a task is queued at most once, and freed only after its awaiter is gone and it has left the queue |
| `TaskLifetime.LeavesTheQueueOnce` | include/netcore/core.hpp:551-572 | a task out of the queue has been freed or has expired, not both |
| `TaskLifetime.ExpiredTaskIsNeverFreed` | include/netcore/core.hpp:557-565 | a task that expired is never queued again and never freed in any later run |
| `TaskLifetime.ExpiredIsReachable` | include/netcore/core.hpp:557-565 | a run in which a task expires |
| `TaskLifetime.FreeableIffNotExpired` | include/netcore/core.hpp:551-588 | after any run, some continuation frees a task if and only if it has not expired |
| `TaskLifetime.OrphanIsFreed` | include/netcore/core.hpp:553-556 | a queued task whose awaiter is gone is freed by its next check |
| `TaskLifetime.OrphanIsFreedInTime` | include/netcore/core.hpp:551-588 | once its awaiter is gone, a queued task is freed by every continuation that calls more tasks than stand before it |
| `HeapTimer.RootIsEarliest` | core/heaptimer.cpp:5-38 | in heap order no timer is earlier than the root |
| `HeapTimer.Timer.constructor` | core/heaptimer.h:42-43 | an empty heap |
| `HeapTimer.Timer.SwapNode` | core/heaptimer.cpp:17-23 | exchanges two nodes and keeps the references exact |
| `HeapTimer.Timer.SiftUp` | core/heaptimer.cpp:5-15 | leaves its loop if and only if it starts at the root or the root is strictly earlier than the moved node, and then heap order is restored |
| `HeapTimer.Timer.SiftDown` | core/heaptimer.cpp:25-38 | moves the node if and only if a child is not later, restoring heap order; otherwise changes nothing |
| `HeapTimer.Timer.Delete` | core/heaptimer.cpp:72-88 | removes exactly the node at that place and keeps order and references, if and only if the deletion is safe |
| `HeapTimer.Timer.Add` | core/heaptimer.cpp:40-59 | adds or replaces exactly one timer and keeps order and references, if and only if the addition is safe |
| `HeapTimer.Timer.Adjust` | core/heaptimer.cpp:90-95 | changes exactly one deadline; heap order survives if and only if it is not before the parent's, so always for a later deadline |
| `HeapTimer.Timer.DoWork` | core/heaptimer.cpp:61-70 | fires and removes exactly the timer with that id, or does nothing when there is none |
| `HeapTimer.Timer.Pop` | core/heaptimer.cpp:112-115 | removes exactly the root, always keeping order and references |
| `HeapTimer.Timer.Tick` | core/heaptimer.cpp:97-110 | with a clock read at every turn: each timer fired is due at its own reading, once, in non-decreasing deadline order, and none that is left is due at the last reading |
| `HeapTimer.Timer.GetNextTick` | core/heaptimer.cpp:123-131 | ticks, then answers -1 without timers and otherwise the whole milliseconds left of the earliest timer at the second reading, with its bounds in nanoseconds, truncated to 32 bits; when it fits, zero or negative if and only if a timer has become due since the tick |
| `HeapTimer.Timer.Clear` | core/heaptimer.cpp:117-120 | removes every timer and every reference |
| `HeapTimer.DistinctIsSafe` | core/heaptimer.cpp:72-88 | with distinct deadlines every deletion is safe |
| `HeapTimer.LatestIsSafe` | core/epoll_server.hpp:268-271 | with distinct deadlines, adding or renewing with the latest deadline is safe and keeps them distinct |
| `HeapTimer.Serve` | core/epoll_server.hpp:268-271 | with one timeout and an advancing clock, every sequence of additions, renewals, firings and ticks is safe and keeps heap order, exact references and distinct deadlines |
| `HeapTimer.AddTwiceAtOnce` | core/heaptimer.cpp:40-59 | adding two timers with one deadline leaves the vector |
| `HeapTimer.RenewAllAtOnce` | core/heaptimer.cpp:61-95 | three timers added safely and renewed at one moment: firing the middle one leaves the vector |
| `HeapTimer.AdjustBackwards` | core/heaptimer.cpp:90-95 | two timers, the second set back before the first: the heap is unordered |
| `HeapTimer.NextTickMissed` | core/heaptimer.cpp:123-131 | one millisecond left at the tick and two passed before the second reading: the answer is -1 with a timer left |
| `Utf8.AcceptsExactly` | include/netcore/utils.hpp:491-542 | the accepted strings are exactly the encodings of sequences of Unicode scalar values (section 3 of RFC 3629) |
| `Utf8.LeadMasks` | include/netcore/utils.hpp:508-527 | the masks on lead and continuation bytes are the tests of the encoding |
| `Utf8.FourAtOnce` | include/netcore/utils.hpp:495-498 | the 32-bit mask is zero if and only if all four bytes are ASCII |
| `Utf8.IsValidUtf8` | include/netcore/utils.hpp:491-542 | the loop with its 4-byte ASCII path answers exactly that, reading no byte past the end |
| `Utf8.TakeMultibyte` | include/netcore/utils.hpp:508-539 | the size of the multi-byte sequence at that place, or none if it is overlong, a surrogate, too large or cut off |
| `WebSocket.EncodeHeader` | include/netcore/websocket.hpp:231-256 | writes the header of section 5.2 of RFC 6455 of an unmasked final frame |
| `WebSocket.ExtendedIs` | include/netcore/websocket.hpp:237-246 | a length from 126 on is written as a number of two or eight bytes, the most significant first |
| `WebSocket.ReadLengthIs` | include/netcore/websocket.hpp:121-137 | the length that is read is the 7-bit field, or the two or eight bytes after it as such a number |
| `WebSocket.EncodeThenParse` | include/netcore/websocket.hpp:107-148 | length, opcode, FIN and header size are read back once 6, 8 or 14 bytes are present, and -2 is answered before |
| `WebSocket.MaskedHeaderIsRead` | include/netcore/websocket.hpp:107-148 | a masked header and its key are read back, and each proper prefix answers -2 |
| `WebSocket.AnswerIsSettled` | include/netcore/websocket.hpp:107-148 | the answer does not depend on what lies beyond the received bytes |
| `WebSocket.FieldsSettledIff` | include/netcore/websocket.hpp:107-148 | no field depends on what lies beyond the received bytes if and only if all that is read has been received: fewer than six bytes, or the whole header |
| `WebSocket.OverreadExample` | include/netcore/websocket.hpp:127-143 | six received bytes for which eight bytes past them are read |
| `WebSocket.MaskTwice` | include/netcore/websocket.hpp:162-168 | masking with the same key is its own inverse |
| `WebSocket.Unmask` | include/netcore/websocket.hpp:162-168 | the payload is unmasked in front of the output and the rest is left as it was |
| `WebSocket.Frame.Parse` | include/netcore/websocket.hpp:107-148 | stays in the memory it is given if and only if the header fits in it, and then sets length, key, opcode and FIN as the header says; the key stays as it was for an unmasked frame |
| `WebSocket.Frame.ParsePayload` | include/netcore/websocket.hpp:153-178 | asks for more while the payload is incomplete, otherwise delivers it and names the frame type: text, binary, close, ping or pong by the opcode of section 5.2 of RFC 6455, with FIN |
| `WebSocket.MaskedPayloadIsRecovered` | include/netcore/websocket.hpp:153-178 | what was masked with a nonzero key is delivered as it was before masking |
| `WebSocket.MaskedFrameIsRecovered` | include/netcore/websocket.hpp:107-178 | a whole masked frame: the header's answer, length and key lead `parse_payload` to exactly the payload that was masked |
| `WebSocket.ReadFrame` | include/netcore/websocket.hpp:107-178 | a whole masked frame through the object: its payload, and its type by the opcode |
| `Base64.EncodeByQuads` | include/netcore/utils.hpp:455-489 | the first encoder writes the encoding of section 4 of RFC 4648, or its URL-safe form of section 5 without padding, then a NUL, and returns the length without it |
| `Base64.EncodeByBytes` | lib/base64.hpp:19-46 | the second encoder writes the same encoding of section 4 |
| `Base64.SymbolIs` | include/netcore/utils.hpp:446-452 | the symbol of a value is at that place of the alphabet of table 1 of RFC 4648, or of table 2 for the URL-safe form |
| `Base64.DecodeTableIff` | lib/base64.hpp:49-67 | a byte decodes to a value exactly when it is at that place of the alphabet |
| `Base64.Decode` | lib/base64.hpp:47-114 | the decoder reads 6-bit groups up to the first NUL, skipping separators; it fails on a misplaced pad and leaves its table on a byte of 128 or more |
| `Base64.LeavesTableIff` | lib/base64.hpp:73-90 | the table is left if and only if a byte of 128 or more comes before the first NUL and before the first misplaced pad |
| `Base64.MisplacedPadIff` | lib/base64.hpp:73-90 | the null result is given if and only if a misplaced pad comes before the first NUL and before the first byte of 128 or more |
| `Base64.DecodedIsWhole` | lib/base64.hpp:47-114 | otherwise every string decodes to the whole bytes of its joined 6-bit groups, whatever stands between them |
| `Base64.RoundTrip` | lib/base64.hpp:19-114 | decoding an encoding gives back every byte string |

## Left out

- Sockets, epoll, accept, coroutine mechanics, signals and logging: foreign calls with no meaning inside this code.
- `connection`, `http_server`, handlers, router, sessions, cookies, caches, MIME table, URL encoding, `parse_query`,
  gzip, files and dates: glue, or members that would only add easy results.
- Callbacks are recorded, not executed: a user callback that calls back into the parser, the heap or the ring is not
  modelled. The heap's clock is a parameter: a sequence of readings that never goes back.
- `phr_parse_request`, `phr_parse_response` and `phr_parse_headers` with `last_len` other than 0: the server passes 0
  (include/netcore/connection.hpp:237).
- The SSE4.2 branch of `findchar_fast`, the 8-bit, 16-bit and 64-bit instantiations of `itoa.hpp`, its reverse direction
  and `xtoa`.
- Several producers or several consumers of the lock-free ring: slots are announced through a counter, so reservation
  order and writing order can differ and the first-in first-out property is not promised. Sequential consistency is
  assumed, as the code's default memory order gives it.
- MultipartParser.Parser.Feed: that a place of the lookbehind buffer not written for the part is handed over, and where,
  is stated; what it holds, an arbitrary byte or one left from a part before, is not. Delimiters shorter than two bytes,
  which the server never sets, are excluded: they make `boundarySize - 2` wrap around.
- MultipartForm.FormIff: a form is printed as section 5.1 of RFC 2046 says, without a preamble, which the parser refuses,
  and with one space after a header's colon; names are of letters and hyphens, the only ones that the parser takes.
- MultipartRoundTrip.RoundTrip: the file's content is a parameter (the client's in-memory body repeats one letter), and
  the reader's header multimap is a sequence in insertion order.
- HeapTimer.Timer.GetNextTick: a remaining time of 2^31 milliseconds or more is truncated to 32 bits, as in the code.
- WebSocket.Frame.ParsePayload: with a zero key nothing is copied into the output, as in the code; so unmasked payloads
  are not recovered.
- Base64.Decode: the byte at offset `length` is read by the loop test, which ends there whatever it is, and by the pad
  test, for which it is taken not to be a pad. What an index outside the table reads is not modelled, and the failing
  return, a string built from a null pointer, is a result of its own. The URL-safe form that the first encoder can write
  is not read by this decoder.
- HeapTimer.Serve: a renewal of a timer that is gone, which the code excludes by an assertion, is not made.
- Jeaiii.WriteU32: writing the two-byte pair is one store of two bytes; alignment is not modelled.
- TaskQueue.RunRound: what each call posts is a parameter; a node posted while it is still queued, which would corrupt
  the intrusive list, is excluded. Exceptions thrown by a task are caught by the loop and not modelled.
