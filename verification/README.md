# Verification of a small asynchronous HTTP server

A Dafny model of the server's byte-level code and proofs about it. `dafny verify dfyconfig.toml` checks
everything.

The code that works by changing things in place is modelled in that form: the chunked decoder, the
stream buffer, the connection, request and response, the router's tree of nodes, packer, unpacker and
binary message are classes whose methods change fields and arrays in loops; the head parser's scans are
methods with loops. Each method is proved against a specification on sequences, and the theorems are
about those specifications. Where a format is read or written there is a second definition of it, which
refers to neither code nor specification: the chunked coding and message heads as text
(`ChunkedCoding`, `HeadText`), what the fields of a response say (`ResponseText`), and the table of
MessagePack formats (`MsgPackFormat`). The theorems say that the two agree on all inputs.

| part | specification | code | theorems |
|---|---|---|---|
| chunked transfer coding | `ChunkedCoding`, `ChunkedSpec` | `ChunkedDecoder` | `ChunkedTheorems`, `ChunkedExactly` |
| message heads | `HeadText`, `HeadSpec` | `HeadParser` | `HeadExactly`, `ResponseExactly`, `HeadStability`, `HeadEnd` |
| request | `RequestSpec`, `Paths` | `Request` | `RequestMeaning`, `RequestTheorems`, `RequestOnStream`, `RequestExactly` |
| response | `ResponseText`, `ResponseHead`, `Decimal` | `Response` | in the same modules |
| router | `RouterSpec` | `Router` | `RouterSpec` |
| stream | `Messages`, `ConnectionSpec` | `StaticBuffer`, `Connection` | `ConnectionTheorems`, `Delivery` |
| MessagePack | `MsgPackFormat`, `Words`, `MsgPackSpec`, `Timestamp` | `Packer`, `Unpacker` | `MsgPackWire`, `MsgPackShortest`, `MsgPackItems`, `MsgPackReaders`, `MsgPackTheorems`, `Timestamp` |
| framing | `BinaryMessage` | `BinaryMessage` | `EndToEnd` |

How some things are represented:

- A function template over messages takes a record of the transition functions a connection calls. What
  `Response` and `BinaryMessage` hand out is tied to one such record, `Outgoing`; what `BinaryMessage`
  takes in to another, `Incoming`; what `Request` takes in to a third, `Receiving`.
- A socket is a list of the answers it is going to give. A coroutine is observed for some number of loop
  turns, so that statements about every number of turns are statements about every point of every run.
- The overloads of the packer are chosen by a static type, here a value of the datatype `Type`; an
  exception is `None`, or a result that says so.
- The two builds of the head parser, with and without SSE 4.2, are one model with a parameter; the
  compare instruction is specified as the index of the first octet in the ranges, or 16.
- Unsigned 64-bit totals wrap explicitly (`Wrap64`); signed words are two's complement (`Words`).
- What a regrown buffer's capacity is beyond the size asked for is left open (`Response.Alloc`).

Where the code and what one would expect of it part, the model follows the code:

- The decoder's overhead total after completion depends on how the input was cut
  (`ChunkedTheorems.CompletedTotals`).
- Signed integers from -32 to -1 are read back 256 larger by the 32- and 64-bit overloads
  (`MsgPackTheorems.LosslessExactly`).
- The length of a binary message whose octets arrive in several calls is right only under a condition,
  because every call turns the word round (`BinaryMessage.LengthInCalls`); some cuttings lose it
  (`SplitLengthIsLost`), others do not (`LengthInThreeCalls`).
- Strings, binaries and variants of 0xff and 0xffff octets, containers of 0xffff items, and some signed
  integers are packed in more octets than need be (`MsgPackShortest`).
- The members of a pair stand one after another, so that other readers of the format do not take an array
  of pairs for one item (`MsgPackItems.ArraysAreItems`).
- Timestamps of whole seconds from 2^32 on, and of the first fraction of a second of the clock's range,
  do not come back (`Timestamp.TimeRoundTrip`, `Timestamp.SomeDoNotComeBack`).
- The scan for the end of a request head does not stop at the blank line, so that octets behind it in
  the same span hide it unless the counter shows 4 behind them too (`RequestTheorems.HeadAndBehind`, with
  `HiddenHead` and `ShortestHidden`).
- Only two spellings of Content-Length are known to a response, and only a positive number counts as set.
  A user who sets 0 beside a body, or another spelling, sends two lengths that differ
  (`Response.ConflictingLengths`, `Response.UnknownSpelling`); when there is exactly one, in whatever
  spelling, is stated in `Response.LengthsPrinted`. A value counts by the number it starts with.
- A write that fails while its last octets are sent leaves them to the next write, which sends them first
  (`ConnectionTheorems.LeftoverIsSent`).
- A request is received exactly if a piece of the stream ends where its head does, or the head just fills
  the buffer (`RequestExactly.ReceivedExactly`).
- A well-formed chunked body may be refused because of where the calls cut it
  (`ChunkedTheorems.RefusedExactly`, `ManySmallChunks`).

## Model

| member | source | states |
|---|---|---|
| `ChunkedDecoder.Decoder.constructor` | src/message/http.cpp:323-324 | A decoder starts in the state of one that has read nothing, with the trailer flag it is given. |
| `ChunkedDecoder.Decoder.Decode` | lib/picohttpparser/picohttpparser.c:545-698 | One call, decoding in place: return value, new state, decoded octets at the front of the buffer, the unread ones right behind them and the octets past the input untouched are those of the octet-at-a-time machine. A reachable state stays reachable. |
| `ChunkedDecoder.Decoder.Scan` | lib/picohttpparser/picohttpparser.c:554-683 | The nested loops read exactly as far as the machine does, never write past what they have read, and stop with its verdict. |
| `ChunkedDecoder.Decoder.ReadSize` | lib/picohttpparser/picohttpparser.c:556-590 | The size loop reads digits as the machine does; the 64-bit accumulator never wraps. |
| `ChunkedDecoder.Decoder.CopyData` | lib/picohttpparser/picohttpparser.c:613-630 | Chunk data moved to the front with an overlapping move is what the machine passes on octet by octet. |
| `ChunkedDecoder.DataRun` | lib/picohttpparser/picohttpparser.c:613-630 | Any number of data octets inside a chunk are passed on unchanged and counted off the chunk. |
| `ChunkedTheorems.RunSound` | lib/picohttpparser/picohttpparser.c:557-590 | Every machine reachable over any input is sound: at most sixteen digits, a size below 16 to the number of digits read, nothing left over outside chunk data. |
| `ChunkedTheorems.RunJoin` | lib/picohttpparser/picohttpparser.c:551-698 | Reading joined input is reading the first part and going on with the second, at every point of the second. |
| `ChunkedTheorems.FragmentationInvariance` | lib/picohttpparser/picohttpparser.c:545-698 | For every input and every cutting in which no call fails, successive calls end with the machine, decoded octets and leftover of one call on the whole, and, while the body goes on, with the same totals. |
| `ChunkedTheorems.CompletedTotals` | lib/picohttpparser/picohttpparser.c:685-696 | For every cutting that completes: the totals agree with those of one call exactly when the calls before the last were given nothing, or nothing beyond the chunk at hand; otherwise the overhead differs. |
| `ChunkedTheorems.CompletedTotalsDiffer` | lib/picohttpparser/picohttpparser.c:685-696 | A family of well-formed bodies, cut behind the first size line, whose overhead total differs from that of one call. |
| `ChunkedTheorems.TotalsBalance` | lib/picohttpparser/picohttpparser.c:551-696 | Over any run of calls that go on, octets read are octets decoded plus overhead, modulo 64 bits. |
| `ChunkedTheorems.FeedBelowLimit` | lib/picohttpparser/picohttpparser.c:686-694 | A stream with no malformed octet is refused in no call, however cut, while its coding takes less than 100 KiB. |
| `ChunkedTheorems.RefusedExactly` | lib/picohttpparser/picohttpparser.c:684-696 | A stream with no malformed octet, in whatever pieces, is refused exactly if at the end of one of them the body goes on with too much overhead so far. |
| `ChunkedTheorems.RefusedAtFirst` | lib/picohttpparser/picohttpparser.c:686-694 | Too much, for a decoder that has read nothing: at least 100 KiB of overhead, and less than a quarter of the octets decoded. |
| `ChunkedTheorems.ManySmallChunks` | lib/picohttpparser/picohttpparser.c:686-694 | A family of well-formed bodies, of one-octet chunks, that one call accepts and two calls refuse. |
| `ChunkedTheorems.RoundTrip` | lib/picohttpparser/picohttpparser.c:547-698 | Decoding undoes the chunked coding of section 4.1 of RFC 7230, spelled without the decoder (`ChunkedCoding`): any non-empty chunks, sizes in hexadecimal digits of either case, extensions, trailer lines or none, any suffix; the joined data comes out, the suffix is left, its length is returned. |
| `ChunkedTheorems.RoundTripInPieces` | lib/picohttpparser/picohttpparser.c:547-698 | The same for the stream fed in any pieces, as long as the coding takes less than 100 KiB. |
| `ChunkedTheorems.HexDigits` | lib/picohttpparser/picohttpparser.c:532-543 | An octet counts as its place among `0123456789abcdef` or `0123456789ABCDEF`, and as none if it is in neither. |
| `ChunkedExactly.FinishesExactly` | lib/picohttpparser/picohttpparser.c:547-698 | For all octets: the decoder finishes after n of them, with some data, exactly if those n spell a chunked body with that data. |
| `ChunkedExactly.RefusesExactly` | lib/picohttpparser/picohttpparser.c:547-698 | An octet is refused exactly if what has been read can become a body and with it no longer can. |
| `ChunkedExactly.CallExactly` | lib/picohttpparser/picohttpparser.c:545-698 | One call of a fresh decoder: it completes exactly on a body with what follows it, giving its data and leaving the rest; it asks for more exactly if the octets can become a body and have not cost too much; otherwise it refuses. |
| `HeadParser.FindCharFast` | lib/picohttpparser/picohttpparser.c:105-132 | The sixteen-octet skip passes over no octet of the ranges, and what it reports as found is one. |
| `HeadParser.ParseToken` | lib/picohttpparser/picohttpparser.c:245-277 | With or without block skipping: the position, token and error of an octet-by-octet scan. |
| `HeadParser.AdvanceToken` | lib/picohttpparser/picohttpparser.c:71-94 | The same for the request target. |
| `HeadParser.GetTokenToEol` | lib/picohttpparser/picohttpparser.c:134-195 | The same for the rest of a line, in the sixteen-octet and the unrolled eight-octet build. |
| `HeadParser.SkipEights` | lib/picohttpparser/picohttpparser.c:146-170 | The unrolled loop passes over no control octet and stops at one only if there is one. |
| `HeadParser.ParseHeader` | lib/picohttpparser/picohttpparser.c:315-350 | One header line: name, value without trailing blanks, or a continuation, as defined octet by octet. |
| `HeadParser.ParseHeaders` | lib/picohttpparser/picohttpparser.c:298-353 | All header lines up to the blank line, with the limit on their number. |
| `HeadParser.IsComplete` | lib/picohttpparser/picohttpparser.c:197-223 | The pre-check finds what the octet-by-octet definition finds from the same start. |
| `HeadParser.PhrParseRequest` | lib/picohttpparser/picohttpparser.c:355-427 | The whole request parser with its three-way result, behind the pre-check when some length was parsed before. |
| `HeadParser.PhrParseResponse` | lib/picohttpparser/picohttpparser.c:429-498 | The whole response parser, likewise. |
| `HeadParser.ReasonText` | lib/picohttpparser/picohttpparser.c:449-461 | The reason phrase: empty, or one space at least and then the text behind all leading spaces. |
| `HeadStability.PrefixStability` | lib/picohttpparser/picohttpparser.c:355-427 | A parse that succeeds at n gives the same n and slices on every buffer that shares the first n octets, and "incomplete" on every shorter prefix; a refusal stays a refusal under every extension. |
| `HeadStability.ResponsePrefixStability` | lib/picohttpparser/picohttpparser.c:429-498 | The same for the response parser. |
| `HeadEnd.RequestEnd` | lib/picohttpparser/picohttpparser.c:298-427 | A request parse that succeeds stops at the first two line ends in a row, with every CR before that paired with LF. |
| `HeadEnd.ResponseEnd` | lib/picohttpparser/picohttpparser.c:298-498 | The same for responses. |
| `HeadEnd.CompleteFindsEnd` | lib/picohttpparser/picohttpparser.c:197-223 | From any earlier start the pre-check stops at exactly that place. |
| `HeadEnd.PreCheckAgrees` | lib/picohttpparser/picohttpparser.c:197-223 | Success without the pre-check implies the same success with it for every shorter last length, and success with it implies the same success without it; for requests and responses. |
| `HeadEnd.WholeBufferIsHarmless` | src/message/http.cpp:343-348 | Once CRLFCRLF has been received, parsing the whole buffer succeeds exactly when parsing the received octets does, with the same length and slices, whatever the unreceived tail holds. |
| `HeadExactly.TokenChars` | lib/picohttpparser/picohttpparser.c:96-103 | The octets of a token are the marks, digits and letters of section 3.2.6 of RFC 7230. |
| `HeadExactly.RequestExactly` | lib/picohttpparser/picohttpparser.c:298-427 | For every buffer and limit: the request parser succeeds at n, with some slices, exactly if the buffer begins with the spelling (`HeadText`) of a request head of at most that many lines, n octets long, whose parts stand where the slices say. |
| `HeadExactly.RequestTexts` | lib/picohttpparser/picohttpparser.c:298-427 | Those slices hold the method, the target, and of every line the name and the value without the blanks around it; the minor version is the digit spelled. |
| `ResponseExactly.Exactly` | lib/picohttpparser/picohttpparser.c:298-498 | The same for the response parser. |
| `ResponseExactly.Texts` | lib/picohttpparser/picohttpparser.c:298-498 | Its slices hold the reason and the names and values; minor version and status are the numbers spelled. |
| `RequestSpec.CountedFour` | src/message/http.cpp:453-464 | Whenever the one-octet counter shows 4, even after wrapping, CRLFCRLF has gone by. |
| `RequestSpec.FourAfterBlankLine` | src/message/http.cpp:453-464 | The counter shows 4 behind CRLFCRLF unless a CR stands in front of it or the count began earlier. |
| `RequestSpec.UnderstoodWholeBuffer` | src/message/http.cpp:335-410 | What is understood (method, target, version, fields, length, path, parameters) or refused from the whole buffer is what is understood from the received octets, once CRLFCRLF is among them. |
| `RequestSpec.UnderstoodPrefix` | src/message/http.cpp:335-410 | Octets behind a head that parses change nothing that is understood. |
| `RequestMeaning.Understands` | src/message/http.cpp:335-410 | For every request head of at most 32 lines, as text, and anything behind it: it is refused exactly if its first Content-Length line (in either spelling) starts with no number of 64 bits. Otherwise what is known is what the text says: method, target, the fields; version 1.0 exactly for minor 0; that number as the length, or none without such a line; chunked exactly without one and with a Transfer-Encoding that contains `chunked`; the non-empty texts between the slashes before the first `?`, and an empty one for a final slash; and the texts between the ampersands behind it, split at their first `=`. |
| `RequestMeaning.TooManyLines` | src/message/http.cpp:339-348 | A head of more than 32 lines is not understood at all. |
| `Paths.SegmentsOfJoin` | src/message/http.cpp:380-390 | For all texts joined by slashes: the segments are those that are not empty, and an empty one if the last is. |
| `Paths.PairsOfJoin` | src/message/http.cpp:392-407 | For all texts joined by ampersands: the parameters are those texts but for an empty last one, each split at its first `=`. |
| `Request.Request.constructor` | src/message/http.cpp:319-325 | A new request has received and understood nothing. |
| `Request.Request.ScanSpan` | src/message/http.cpp:452-464 | After one span the counter and last octet are those of the scan carried on over it, and the length kept ends at the last place where the counter shows 4, or is all of it. |
| `Request.Request.Deserialize` | src/message/http.cpp:335-410 | What the request knows afterwards, and the answer, including the half that stays changed when a Content-Length is refused and the path and parameters that are added to those before; what that is for a new request is told from the text in `RequestMeaning.Understands`. |
| `Request.Request.ConsumeHeaderSome` | src/message/http.cpp:447-476 | For any octets in any state, also after an error: buffer, cursor, counter, head, answer and count are those of the transition that the theorems below are about. |
| `Request.Request.ConsumeBodySome` | src/message/http.cpp:477-489 | Body, cursor, answer and count of a body of announced length, or of none; a length over the limit is refused. |
| `RequestTheorems.TakeHeadInStep` | src/message/http.cpp:447-476 | Octets accepted are appended in order; a call at whose end the counter shows 4 has kept all that there was room for, has seen CRLFCRLF, and has understood or refused exactly the received octets, whatever lies behind them in the buffer; no other call completes or changes the head. |
| `RequestTheorems.AnyCalls` | src/message/http.cpp:447-476 | Over any calls on a fresh request: the head ends in the first call at whose end the counter over all octets looked at shows 4, recognised or refused by what was kept, or whose span takes all the room without the counter showing 4, refused; and in no other. |
| `RequestTheorems.HeadScan` | src/message/http.cpp:453-464 | Inside a head that parses the counter never shows 4, and at its end it does exactly if the head ends with CRLFCRLF. |
| `RequestTheorems.HeadInPieces` | src/message/http.cpp:447-476 | A head in any number of spans with nothing behind it in the last: recognised exactly if it ends with CRLFCRLF and its Content-Length, if any, is a number; then what is known is what the head says. |
| `RequestTheorems.HeadAndBehind` | src/message/http.cpp:447-476 | A head in any number of spans with any octets behind it in the last: recognised exactly if the counter shows 4 behind those too; otherwise nothing is known of it. |
| `RequestTheorems.HeadTooLong` | src/message/http.cpp:448-466 | A head longer than the buffer, however cut, is refused in the call whose span reaches the end of the buffer, with nothing known. |
| `RequestTheorems.HiddenHead` | src/message/http.cpp:453-475 | Any head with one octet other than CR or LF behind it in its span is taken, reported as incomplete, and not known. |
| `RequestTheorems.ShortestHidden` | src/message/http.cpp:453-475 | A concrete head that is recognised alone and hidden by an X behind it. |
| `RequestOnStream.RequestReceived` | src/connection.h:51-94 | A request, given as text with a body of the length that text announces, on a stream a piece of which ends where the head does (or whose head just fills the buffer): a read that succeeds has taken exactly the request, knows what its text says, holds its body and leaves the rest unread; only the socket makes it fail; it succeeds if the socket delivers. |
| `RequestOnStream.BodyTooLong` | src/message/http.cpp:478-479 | A request that announces more than 1 MiB is refused when its body begins, and nothing changes. |
| `RequestExactly.ReceivedExactly` | src/connection.h:51-94 | From a socket that delivers, one read receives the request and leaves what follows exactly if a piece ends where the head does, or the head just fills the buffer; otherwise a read that succeeds has swallowed some of what follows. |
| `RequestExactly.RequestsReceived` | src/connection.h:51-94 | Any number of pipelined requests on such a stream are received one per read, in order, and the last read stops where they end. |
| `ResponseHead.TrimNothing` | lib/picohttpparser/picohttpparser.c:336-348 | A value comes back as it was set exactly when it has no outer blanks. |
| `ResponseHead.ResponseRoundTrip` | lib/picohttpparser/picohttpparser.c:429-498 | The parser, given a printed head with anything behind it, returns its exact length, the minor version and status whose digits were printed, the reason, and the fields in order, each value without its outer blanks, which is the value itself exactly when it has none. |
| `Response.Response.constructor` | src/message/http.cpp:523-540 | A new response has printed its status line, into the span given or a larger buffer. |
| `Response.Response.Alloc` | src/message/http.cpp:542-554 | There is room for the request, nothing written is lost, and all regrowths together have copied at most twice the size of the buffer. |
| `Response.Response.Set` | src/message/http.cpp:605-641 | The field is printed behind what is there, through any regrowth, and the flags keep saying what the fields say. |
| `Response.Response.SetBody` | src/message/http.cpp:643-662 | The body is the one given, in one form, the other form cleared. |
| `Response.CompletedAnnounces` | src/message/http.cpp:556-575 | Completing keeps the fields set and adds, in this order, exactly what is missing: with a body and no type set, `text/plain` for a string body and `application/octet-stream` otherwise; with no connection set, `keep-alive`, or `close` if connections are not kept; with no positive length announced, the size of the body. The last number among the Content-Length fields is then the length of the body. |
| `Response.Response.Serialize` | src/message/http.cpp:556-581 | Prints the head and the blank line, the head being the fields there were and, behind them, exactly the missing type, connection and length, with their values told without the code. |
| `Response.Response.ProduceHeaderSome` | src/message/http.cpp:670-690 | Whether or not the head was complete before: the octets, cursor and answer of a message that sends its completed head. |
| `Response.Response.ProduceBodySome` | src/message/http.cpp:691-719 | The octets, cursor and answer of a message that sends its body, cut or padded to the announced length. |
| `Response.LengthsPrinted` | src/message/http.cpp:569-575 | Counting lengths in every spelling: completing adds one unless the code has understood a positive one; so the head has exactly one if, and only if, the user set none, or one understood as positive (one of the two spellings known, a value that starts with a positive number); and that one says the size of the body that goes out. |
| `Response.TwoLengths` | src/message/http.cpp:569-575 | A user who sets one length, in whatever spelling, that the code does not understand as positive sends two. |
| `Response.UnknownSpelling` | src/message/http.cpp:627 | So does one who spells it in capitals: two lengths that differ. |
| `Response.ConflictingLengths` | src/message/http.cpp:569-575 | A user who sets the length to 0 and a body sends two Content-Length fields that differ. |
| `Response.WhatGoesOut` | src/message/http.cpp:556-719 | Whatever was set: the head that goes out parses back, in exactly its length, to the user fields in order followed by exactly what was missing; the body is the one set, cut or filled up with zeros to the positive length announced, if any, and has the length that the last number among the Content-Length fields says; if the head names exactly one length, in whatever spelling, it is that one. |
| `Response.AnnouncedIs` | src/message/http.cpp:631-633 | The length a response takes to be announced is that of the last Content-Length field, in either spelling, that starts with a number of 64 bits. |
| `Decimal.DecimalRoundTrip` | src/message/http.cpp:573 | from_chars of to_chars gives the number back, also in front of other text. |
| `Decimal.Prints` | src/message/http.cpp:573 | What is printed writes the number in the digits 0 to 9, the most significant first, with no zeros in front. |
| `Decimal.ReadsExactly` | src/message/http.cpp:362-367 | For every text and number: reading gives the number exactly if the text begins with digits that write it, followed by none, and it fits 64 bits. |
| `StaticBuffer.StaticBuffer.Commit` | src/buffer.cpp:24-27 | Committed octets become readable behind those there were; the clamp only acts on sizes beyond the writable span. |
| `StaticBuffer.StaticBuffer.Consume` | src/buffer.cpp:32-38 | Consumed octets leave the front; emptying puts both cursors back to zero. |
| `Connection.Connection.Read` | src/connection.h:51-94 | The nested loops, over any socket and message and stopped after any number of turns, have done exactly that many steps of the reading machine. |
| `Connection.Connection.ReadSome` | src/connection.h:59-66 | A socket answer becomes committed octets, an ended connection or a read error. |
| `Connection.Connection.Feed` | src/connection.h:72-90 | One turn of the inner loop: the header step, then the body step if the header is done. |
| `Connection.Connection.Write` | src/connection.h:97-144 | The nested loops have done exactly that many steps of the writing machine. |
| `Connection.Connection.FillOnce` | src/connection.h:106-126 | One turn of the filling loop. |
| `Connection.Connection.WriteSome` | src/connection.h:128-141 | A socket answer takes octets off the front, or ends the call. |
| `ConnectionTheorems.StreamConservation` | src/connection.h:51-94 | Over any run of reads, each stopped at any point: octets received are octets accepted by the messages, in order, followed by the readable ones. |
| `ConnectionTheorems.FetchConserves` | src/connection.h:57-66 | Every socket read starts with both cursors at zero and the whole buffer offered, so that committing never clamps. |
| `ConnectionTheorems.AfterError` | src/connection.h:52-53 | After an error every later read returns INVALID_STATE and changes nothing. |
| `ConnectionTheorems.ReadFails` | src/connection.h:59-63 | After any number of turns: a read fails only as the message says, or with what the first answer of the socket without octets means, CONNECTION_ENDED if it counted none and SOCKET_READ_ERROR otherwise; and it waits only if there was no such answer. |
| `ConnectionTheorems.ExactTransmission` | src/connection.h:97-144 | Under every schedule of partial writes, and whatever an earlier write left in the buffer: the wire holds a prefix of that, the header and the body; a write that succeeds has put exactly those there, leaves the connection at its start with an empty buffer, and leaves the message as it was, so that it sends the same octets again. |
| `ConnectionTheorems.WriteConservation` | src/connection.h:97-144 | Over any run of writes of any messages, each stopped at any point: octets produced are octets on the wire followed by those in the buffer; a later write is refused exactly if the message before it has not produced everything, and then changes nothing. |
| `ConnectionTheorems.LeftoverIsSent` | src/connection.h:115-141 | A write refused while its last octets are sent leaves them in the buffer of a connection at its start, and the next write sends them first. |
| `ConnectionTheorems.WriteSucceeds` | src/connection.h:97-144 | If the socket takes at least one octet each time, often enough, the write succeeds within a number of steps given by the size of the message. |
| `ConnectionTheorems.WriteFails` | src/connection.h:133-138 | The same for a write, with SOCKET_WRITE_ERROR. |
| `Paths.Split` | src/message/http.cpp:210-219 | The splitting loop, shared by router and request, yields the segments as defined. |
| `Paths.PathRoundTrip` | src/message/http.cpp:210-219 | Splitting undoes rendering: slash-free segments, of which only the last may be empty. |
| `Paths.ParseQuery` | src/message/http.cpp:393-407 | The query loop yields the pairs as defined. |
| `Paths.QueryRoundTrip` | src/message/http.cpp:393-407 | Parsing undoes rendering of pairs whose keys lack `=` and `&` and whose values lack `&`. |
| `Router.Router.constructor` | src/message/http.cpp:171-172 | A new router is one node and serves nothing. |
| `Router.Router.Add` | src/message/http.cpp:209-247 | After any run of registrations the tree of nodes holds exactly the handlers of the table of routes; this one is the last. |
| `Router.Router.Walk` | src/message/http.cpp:222-238 | Walking down reaches the node of the pattern, adding missing nodes and disturbing no handler. |
| `Router.Router.Find` | src/message/http.cpp:175-206 | The backtracking search in the tree returns the node that the first derivation in search order leads to, or null if there is none. |
| `Router.Router.Handle` | src/message/http.cpp:254-265 | The handler called is the chosen one, or the not-found handler if no registered pattern matches. |
| `RouterSpec.SearchIsBest` | src/message/http.cpp:185-205 | The derivation found is one, and comes no later than any other in the order literal, parameter, wildcard, shorter wildcard first. |
| `RouterSpec.SearchFindsMatches` | src/message/http.cpp:175-206 | Something is found exactly when some registered pattern matches the path. |
| `RouterSpec.LastRegistrationCounts` | src/message/http.cpp:245 | A pattern is served exactly when some route has it, by the last such route. |
| `RouterSpec.OrderDoesNotMatter` | src/message/http.cpp:209-247 | Routes with different patterns registered in any order give the same table. |
| `RouterSpec.Chosen` | src/message/http.cpp:254-265 | A handler is chosen exactly when some registered pattern matches. |
| `RouterSpec.ChosenIsBest` | src/message/http.cpp:175-265 | The handler chosen is that of the last route with its pattern, by a derivation that comes no later than any by which any route matches. |
| `RouterSpec.EdgesOfSegments` | src/message/http.cpp:222-238 | `*` is a wildcard, a segment that begins with `:` a parameter, and every other segment stands for itself. |
| `RouterSpec.LiteralPathIsServed` | src/message/http.cpp:175-247 | After any run of registrations, a path registered with no `*` or `:` segment is served by the last handler registered for it, whatever else is registered before, after or beside it. |
| `Packer.Packer.PackType` | src/libModules/msgpack23.cpp:231-484 | Appends exactly the packed form, or throws where it has none; a counting packer counts exactly that many octets. What that form is on the wire is told without it in `MsgPackWire` and `MsgPackShortest`. |
| `Packer.Packer.PackVariant` | src/libModules/msgpack23.cpp:257-298 | The counting pre-pass yields the size of the octets then appended, and the header announces it. |
| `Packer.Packer.PackArray` | src/libModules/msgpack23.cpp:242-252 | Header and items in order. |
| `Packer.Packer.PackMap` | src/libModules/msgpack23.cpp:231-240 | Header and entries in order. |
| `Packer.Packer.PackTuple` | src/libModules/msgpack23.cpp:343-357 | Members one after another. |
| `Packer.Packer.PackInt` | src/libModules/msgpack23.cpp:359-402 | The form of the narrowest overload whose range, its ends left out, holds the value, by nested calls. |
| `Packer.Packer.PackUInt` | src/libModules/msgpack23.cpp:404-430 | The smallest unsigned form. |
| `Packer.Packer.Put` | src/libModules/msgpack23.cpp:141-170 | One octet through the inserter: appended, or counted. |
| `Packer.Packer.PackTime` | src/libModules/msgpack23.cpp:306-341 | With division towards zero and a correction: the form of the seconds rounded down and the nanoseconds above them. |
| `Unpacker.Unpacker.UnpackType` | src/libModules/msgpack23.cpp:588-1014 | Reads from the position exactly what the specification reads from the octets ahead, moves by exactly its length, and throws exactly when it fails. |
| `Unpacker.Unpacker.ReadIntegral` | src/libModules/msgpack23.cpp:532-542 | A big-endian word, if enough octets are there. |
| `Unpacker.Unpacker.UnpackVariant` | src/libModules/msgpack23.cpp:629-684 | Size, index and content, the content by an unpacker confined to its span. |
| `Unpacker.Unpacker.UnpackMap` | src/libModules/msgpack23.cpp:588-601 | As many entries as announced, each inserted or assigned. |
| `Unpacker.Unpacker.UnpackArray` | src/libModules/msgpack23.cpp:603-613 | As many items as announced. |
| `Unpacker.Unpacker.UnpackInt` | src/libModules/msgpack23.cpp:760-850 | The signed overloads and the fall-through to narrower ones. |
| `Unpacker.Unpacker.UnpackUInt` | src/libModules/msgpack23.cpp:852-932 | The unsigned overloads and the fall-through within them. |
| `Unpacker.Unpacker.UnpackTime` | src/libModules/msgpack23.cpp:692-742 | The three timestamp forms, or an exception. |
| `MsgPackTheorems.SignedRoundTrip` | src/libModules/msgpack23.cpp:359-402 | Signed integers of every width come back, except -32 to -1 in 32 or 64 bits, which come back 256 larger. |
| `MsgPackTheorems.UnsignedRoundTrip` | src/libModules/msgpack23.cpp:404-430 | Unsigned integers of every width come back. |
| `MsgPackTheorems.SizesRoundTrip` | src/libModules/msgpack23.cpp:203-229 | Every size that has a string, binary, array or map header is read back from it, with its length. |
| `MsgPackTheorems.UnpackPacked` | src/libModules/msgpack23.cpp:231-1014 | For every type and every value of it, nested to any depth: unpacking the packed form in front of anything gives a definite value and stops right behind it. |
| `MsgPackTheorems.LosslessExactly` | src/libModules/msgpack23.cpp:813-847 | That value is the one packed exactly when it holds no signed 32- or 64-bit integer from -32 to -1. |
| `MsgPackTheorems.RoundTrip` | src/libModules/msgpack23.cpp:231-1014 | Both together: unpack of pack stops at the end and is the identity exactly on the lossless values. |
| `MsgPackWire.PackedReads` | src/libModules/msgpack23.cpp:203-484 | For every type and value, nested to any depth: a reader of the format that works from the table of first octets and knows no type (`MsgPackFormat`) reads what was packed, with nothing left over, as the tokens of the value; a variant as an extension of the kind its index names, whose data holds the alternative. |
| `MsgPackShortest.ShorterTexts` | src/libModules/msgpack23.cpp:453-484 | A form shorter than the one packed exists exactly for strings, and binaries, of 0xff and of 0xffff octets. |
| `MsgPackShortest.TextsShortest` | src/libModules/msgpack23.cpp:453-484 | How long they are against the least; they are refused from 0xffffffff octets on. |
| `MsgPackShortest.CountsShortest` | src/libModules/msgpack23.cpp:203-229 | For the headers of arrays and maps a shorter form exists exactly for 0xffff items; they are refused from 0xffffffff items on. |
| `MsgPackShortest.VariantsShortest` | src/libModules/msgpack23.cpp:257-298 | For a variant exactly for contents of 0xff and of 0xffff octets. |
| `MsgPackShortest.SignedShortest` | src/libModules/msgpack23.cpp:359-397 | For signed integers of every width, among the signed forms: exactly for 32 to 127 and the ends of the ranges of the narrower widths. |
| `MsgPackShortest.UnsignedShortest` | src/libModules/msgpack23.cpp:399-430 | Unsigned integers are packed in the shortest form there is. |
| `MsgPackItems.PlainValues` | src/libModules/msgpack23.cpp:231-357 | A value in which every container has elements of one item each (entries of two) is, read by the format, as many items as its type has members. |
| `MsgPackItems.ArraysAreItems` | src/libModules/msgpack23.cpp:242-252 | An array is one item of the format exactly if it is empty or its element type is one item: not for pairs, whose members stand one after another. |
| `MsgPackItems.MapsAreItems` | src/libModules/msgpack23.cpp:231-240 | A map exactly if it is empty or key and value are two items together. |
| `MsgPackReaders.ConstantsUnpack` | src/libModules/msgpack23.cpp:934-954 | Nil and booleans are unpacked from all octets that hold them, and from no others. |
| `MsgPackReaders.FloatsUnpack` | src/libModules/msgpack23.cpp:956-982 | So are the bits of floating-point values of each width. |
| `MsgPackReaders.BinariesUnpack` | src/libModules/msgpack23.cpp:1000-1014 | So are binaries. |
| `MsgPackReaders.StringsUnpack` | src/libModules/msgpack23.cpp:984-998 | So are strings, from octets that begin like one. |
| `MsgPackReaders.UnsignedUnpack` | src/libModules/msgpack23.cpp:853-932 | So are unsigned integers, from every form that the width lists, the shortest or not. |
| `MsgPackReaders.SignedUnpack` | src/libModules/msgpack23.cpp:760-850 | So are signed ones, but for one-octet negative ones, which 32 and 64 bits read 256 larger. |
| `MsgPackReaders.SizesUnpack` | src/libModules/msgpack23.cpp:566-586 | So are the counts of arrays and maps. |
| `MsgPackReaders.VariantsUnpack` | src/libModules/msgpack23.cpp:629-684 | Every extension unpacks to the alternative its kind names, from exactly its data; other kinds do not unpack. |
| `MsgPackReaders.OtherOctets` | src/libModules/msgpack23.cpp:566-998 | A first octet that the type does not list is not refused: integers take it as their value, strings and containers as a short form. |
| `MsgPackReaders.InsertedAssigns` | src/libModules/msgpack23.cpp:590-601 | An entry goes over the one with its key, or behind all. |
| `Timestamp.TimeRoundTrip` | src/libModules/msgpack23.cpp:306-341 | Every 64-bit nanosecond count, negative ones too, comes back exactly unless it is a whole second of more than 32 bits (then what comes back is stated) or lies in the second that begins before the range (then the arithmetic overflows). |
| `Timestamp.SomeDoNotComeBack` | src/libModules/msgpack23.cpp:306-341 | Instants of both kinds lie within 64 bits. |
| `MsgPackReaders.TimesAreHeld` | src/libModules/msgpack23.cpp:306-341 | What is packed for any instant is an extension of kind -1 that holds it by the format, in the shortest of the three forms that has room for it, exactly unless it is a whole second of more than 32 bits. |
| `MsgPackReaders.TimesUnpack` | src/libModules/msgpack23.cpp:692-742 | Every extension in one of those forms unpacks to the instant it holds, if the clock has it, and to nothing if its kind is not -1. |
| `BinaryMessage.BinaryMessage.Pack` | src/message/binaryMessage.cpp:42-57 | The buffer holds the packed value, the length its size, the cursors are at the start; or SERIALIZATION_ERROR with the value kept. |
| `BinaryMessage.BinaryMessage.Unpack` | src/message/binaryMessage.cpp:58-69 | The value is what the buffer unpacks to, and the buffer is emptied; or DESERIALIZATION_ERROR. |
| `BinaryMessage.BinaryMessage.ConsumeHeaderSome` | src/message/binaryMessage.cpp:72-83 | Octets copied into the host word and the word swapped, on every call. |
| `BinaryMessage.BinaryMessage.ConsumeBodySome` | src/message/binaryMessage.cpp:84-94 | Octets copied behind those there were, up to the length. |
| `BinaryMessage.BinaryMessage.ProduceHeaderSome` | src/message/binaryMessage.cpp:96-109 | The octets of the length, most significant first, from the cursor. |
| `BinaryMessage.BinaryMessage.ProduceBodySome` | src/message/binaryMessage.cpp:110-121 | The octets of the body, from the cursor. |
| `BinaryMessage.LengthInCalls` | src/message/binaryMessage.cpp:72-83 | A length that arrives in any number of calls is right exactly if, when the last comes, the parts before it stand at the front of the word as turned round by every call. |
| `BinaryMessage.LengthInTwoCalls` | src/message/binaryMessage.cpp:72-83 | With two calls: exactly if the first part survives one turn. |
| `BinaryMessage.LengthInThreeCalls` | src/message/binaryMessage.cpp:72-83 | With three, of which the first two bring at most four octets: exactly if the second part repeats what stood there before, as with a length below 2^32 in a word that was zero. |
| `BinaryMessage.SplitLengthIsLost` | src/message/binaryMessage.cpp:78 | A concrete length for which it does not. |
| `EndToEnd.FrameReceived` | src/connection.h:51-94 | However the stream is cut (the eight length octets in one call): a read that succeeds has taken exactly the frame, holds its body and leaves what follows unread; it fails only with the socket; it does succeed if the socket keeps delivering. |
| `EndToEnd.RunDelivers` | src/connection.h:56-92 | Every step moves octets towards the message, so that the read returns within a bound given by the octets still to come. |
| `EndToEnd.FramesReceived` | src/connection.h:51-94 | Any number of pipelined frames, on a stream no piece of which ends inside the length of one, are received one per read, in order, and the last read stops where they end. |
| `Delivery.RunMoves` | src/connection.h:51-94 | Over any run of reading the stream is used up from its front, and its pieces end where they did. |
| `EndToEnd.ResponseCrosses` | src/connection.h:97-144 | A response, whatever was set on it and however its write is cut: a write that succeeds puts octets on the wire that parse to its completed head, exactly, followed by as many octets of body as that head announces; and it succeeds if the socket keeps taking octets. |
| `EndToEnd.ValueCrosses` | src/message/binaryMessage.cpp:42-121 | A value packed, sent under any partial writes and received under any such cutting unpacks with nothing left over, to the very value exactly when it is lossless, and the following octets stay unread. |

## Left out

- The chunked branch of `Request::consumeBodySome`: it reports decoded octets where the connection
  expects consumed ones. The decoder itself is proved on its own.
- Request.Request.ConsumeBodySome: covers the branch for an announced length and the one without a body,
  not the chunked branch, for the reason above.
- Request.Request.Deserialize: how many fields a lookup sees after a head that did not parse, which the
  parser leaves at the number it had got to, is not modelled; the fields themselves are.
- Unpacker.Unpacker.UnpackVariant: taking a span longer than the data, which the code does before it checks
  the bound, is undefined there; the model throws.
- BinaryMessage.BinaryMessage.Unpack: the value left behind by a failed unpacking is not specified.
- Packer.Packer.PackType: what a failed packing has appended is only known to extend what was there.
- Unpacker.Unpacker.UnpackType: unpacks into a fresh value, as `BinaryMessage` does; items are not added
  to a container that already holds some. The position after a failure is not specified. The loop
  counters are unbounded, where the code's `int` would overflow on containers of 2^31 items.
- Containers of fixed size, and time points inside other values; enumerations count as their underlying
  integers and objects that pack their members as tuples.
- The meaning of floating-point values: they are carried as their bits.
- Router.Router.Add: empty paths and, in a request, targets that start with `?` are split into no segments, where
  the code asks an empty string for its last character.
- Response.Response.Set: the value must not lie in the header buffer itself, which a regrowth replaces; the
  overload for enumerated field names is the one for their texts.
- Response.Response.constructor: the constructors that begin with a buffer of their own are the case of a
  fresh span; the number of a status is its text.
- Object lifetimes: views into buffers, a request and a response sharing one buffer, storage that is
  reserved and then written to.
- Memory that runs out, and sizes of 2^64 octets and more.
- Threads, acceptors, socket options, the demo routes, JSON, the tables of status and field texts, error
  texts, field lookups, and the methods that always answer INVALID_MESSAGE: no protocol of their own.
- Every property is about one connection; a read and a write on it use different buffers and states and
  are treated separately.
