# cwebhttp: models and proofs

cwebhttp is an HTTP/1.1 and WebSocket library in C. These Dafny modules model its protocol code and
its stateful structures and prove what they promise on all inputs and over all runs.
`dafny verify dfyconfig.toml` checks everything.

**WebSocket.** `WsFrame`, over `Octets`, is the frame codec: 7, 16 and 64 bit lengths and XOR
masking. `WsStream` is what a stream of frames means: a fold of a per-frame dispatch, with
reassembly and the close handshake. `WsConnection` is the connection object that accumulates
received bytes in a buffer and removes frames from its front. The main result is that, however the
bytes are cut, the buffered form ends as the fold over the frames. `WsMeaning` says what the frames
mean, by their bits and bytes and without the functions of the processor. A receive brings any bytes
that fit the rest of the buffer, and callbacks and sends are events of a trace.

**HTTP.** `Chunked` has a grammar of chunked bodies beside the decoder and the encoder, and shows that
the decoder accepts exactly the grammar. `HttpHeaders`, `HttpRequest` and `HttpResponse` state the
zero-copy parsers on positions, with the terminators they write into the buffer, and the formatters;
`HttpBuffers` has their cursor loops over arrays. Round trips are given as exact conditions, with the
capacities of the code: where the C code would write outside a table, a buffer or the text it was
given, the models answer `Overrun`, and exactly when they do is a theorem. Addresses are part of the
model where the code adds to them what it has read. `HttpGrammar` gives the lines as grammars, without a
cursor, and shows that the parsers accept exactly these; `HttpMeaning` says what a reader is shown of a
response with codings.

**Event loops.** `Handlers` and `HandlerLists` are the handler list that all back ends share, as a map
and as linked entries. `Epoll`, `Kqueue`, `Select` and `WsaPoll` are the four registries, with the
kernel's interest as a second component of the state. `Epoll` also has the dispatch of a batch, in
which a callback may do anything to the registry. `BackEnds` shows that the four answer the same calls
alike.

**Server.** `AsyncServer` is the connection machine as steps on a state; `ServerRuns` states what
holds in every state that a schedule of events can lead to; `ServerObjects` is the server object
with its linked connections, each handler proved equal to its step, and dispatch over the registry
proved equal to the sequence of steps. `ServerAnswers` says what a step does for a client: a request
is answered, what send takes is on the wire, a connection ends or goes on. What a read finds, what
send takes, what accept returns and the time are inputs of a step. `ServedResponse` shows what the
library's own response parser reads in what the server sends.

**Stores.** `Pool` and `PoolObjects` are the keep-alive pool, `Cookies`, `CookieJar` and
`CookieJarObjects` the cookies, `Redirect` the redirect loop, `Memcheck` and `MemcheckObjects` the
allocation tracker. Each has an abstract model (one place for every connection, a map in order of
recency, a chain of different URLs, a map of live blocks) and an object that refines it.

Properties that the code does not have everywhere are stated with the exact condition under which it
has them:

- `Epoll.AgreementKeptIff`: a modification that the kernel refuses has already changed the handler, so
  the two differ afterwards.
- `Kqueue.AgreementKeptIff`: a change list taken in part leaves handlers and filters apart.
- `HttpRequest.RoundTripIffCarried`, `HttpResponse.RoundTripIffCarried`: a request with an empty target
  is formatted but not parsed back. Neither is a message whose head does not fit the 1024 bytes of the
  formatter, or that has more than 16 headers.
- `HttpHeaders.TableIsOverrunIff`, `HttpRequest.ParseOverrunsIff`, `HttpResponse.ParseOverrunsIff`: the
  seventeenth header line is stored behind the header table.
- `Chunked.DecodeIffChunked`: a chunk size near 2^64 makes the sum in the bounds test wrap, and passes.
- `HttpResponse.ChunkedResponseShowsBody`: a chunked body is decoded into 16384 bytes, without a check.
- `WsStream.FrameTestIff`: a payload length near 2^64 makes the sum with the header length wrap, and passes.
- `ServedResponse.ServedResponseReadsBack`: a body that does not fit the send buffer is cut, but the
  length announced for it is not.
- `CookieJar.DomainMatchesIff`: the comment at src/cwebhttp.c:400 says that a cookie for
  `.example.com` is sent to `example.com`. The code never does that.
- `CookieJar.GetSendsTheMatchingIff`: a cookie without a name leaves a stray separator in the text, and
  a text that does not fit the 4096 bytes is cut off.
- `Memcheck.CompleteKeptIff`: a failed realloc drops a block that is still live from the table.

## Model

| member | source | states |
|---|---|---|
| `WsFrame.ParseFrameHeader` | src/websocket.c:142-184 | the cursor over the header bytes answers -1 exactly when the header is incomplete, and otherwise the fields and the header length of all three length forms |
| `Octets.XorTwice` | src/websocket.c:186-192 | the exclusive or with the same key byte twice gives the byte back |
| `Octets.XorIs` | src/websocket.c:186-192 | a byte is the exclusive or of two exactly when each of its eight bits is set where the bits of the two differ |
| `Octets.ByteBits` | src/websocket.c:147-153 | the bit tests of the header are about these bits of the byte |
| `WsFrame.ReadLength` | src/websocket.c:161-171 | shifting in eight bytes gives their big-endian value |
| `WsFrame.ParseHeaderWhenComplete` | src/websocket.c:142-184 | an answer exists exactly when the bytes that the second byte announces are all there |
| `WsFrame.ParseHeaderStable` | src/websocket.c:142-184 | no proper prefix of a header gets an answer, and an answer never changes when more bytes follow |
| `WsFrame.HeaderFields` | src/websocket.c:142-184 | the header by its bits and bytes: fin and opcode in the first byte, mask bit and length code in the second, a length in two or eight bytes with the most significant first, then the key |
| `WsFrame.MaskingIsAnInvolution` | src/websocket.c:186-192 | masking twice with one key gives the payload back |
| `WsFrame.MaskedIs` | src/websocket.c:186-192 | each byte of a masked payload has the bits in which it differs from its byte of the key, the key repeating every four bytes |
| `WsFrame.DecodePayload` | src/websocket.c:186-192 | in the payload range each bit of a byte is flipped exactly where its byte of the key, by position modulo four, has a bit set, in place, and no other byte changes |
| `Octets.BigEndianRoundTrip` | src/websocket.c:219-237 | writing a number in a given number of bytes, most significant first, and reading it back gives the number |
| `WsFrame.LengthBytesReadBack` | src/websocket.c:219-237 | the 16-bit and the 64-bit length forms are wide enough for the lengths they are used for |
| `WsFrame.EncodedParts` | src/websocket.c:196-259 | where the flags, length, key and scrambled payload of an encoded frame lie |
| `WsFrame.ParseInvertsEncode` | src/websocket.c:142-259 | parsing an encoded frame, whatever follows it, recovers fin, the four opcode bits, mask flag, key and length, with the header length |
| `WsFrame.WriteLength` | src/websocket.c:219-237 | writes exactly the extended length bytes, for each of the three forms, and touches nothing else |
| `WsFrame.WriteHeader` | src/websocket.c:216-246 | writes exactly the header bytes and nothing behind them |
| `WsFrame.EncodeFrame` | src/websocket.c:196-259 | writes the whole encoded frame and returns its size if it fits, else writes nothing and returns -1 |
| `WsStream.OnCloseEffect` | src/websocket.c:442-468 | a CLOSE is reported with its code and reason, echoed unless this side is closing already, and closes the connection |
| `WsStream.DispatchAllAppend` | src/websocket.c:371-486 | dispatching two frame sequences after each other is dispatching their concatenation |
| `WsStream.NextFrameStable` | src/websocket.c:345-362 | a complete frame at the front of the buffer stays the same frame when more bytes arrive |
| `WsStream.FrameTestIff` | src/websocket.c:357-362 | the test of the loop, a sum of header and payload length in sixty-four bits, passes exactly the complete frames and the headers whose sum wraps |
| `WsStream.WrapsInSteps` | src/websocket.c:344-494 | what arrives later leads to a length that wraps only if all bytes together do |
| `WsStream.DrainInSteps` | src/websocket.c:323-494 | draining what has arrived, then the backlog with what arrives later, is draining all of it at once |
| `WsStream.DrainLeavesASuffix` | src/websocket.c:344-494 | what stays in the buffer is the end of what was there and holds no complete frame, so consumed and buffered bytes add up to those received |
| `WsStream.Segmentation` | src/websocket.c:323-494 | however the bytes are cut, repeated calls end as one drain of everything read, and reading stops only at the first chunk that closes the connection |
| `WsStream.NextFrameOfEncoding` | src/websocket.c:196-259 | the front frame of an encoded sequence is the frame that was encoded, unmasked |
| `WsStream.NoFrameInAProperPrefix` | src/websocket.c:345-362 | no proper prefix of an encoded frame is taken for a frame |
| `WsStream.EncodedDoesNotWrap` | src/websocket.c:142-259 | in the bytes of encoded frames, wherever they are cut, the loop comes to no length that wraps |
| `WsStream.NoCallWraps` | src/websocket.c:323-494 | so no call comes to one, whatever has been read before |
| `WsStream.DrainOverFrames` | src/websocket.c:344-494 | draining encoded frames is dispatching them one by one |
| `WsStream.DrainOfPrefix` | src/websocket.c:344-494 | draining any prefix of an encoded sequence dispatches exactly its whole frames and keeps exactly the partial one |
| `WsStream.SegmentationIndependence` | src/websocket.c:323-494 | for every frame sequence with nothing behind its first CLOSE and every way of cutting its bytes, the calls end with the callbacks, sends, fragment and state of folding the dispatch over the frames, and an empty buffer |
| `WsStream.EveryChunkIsRead` | src/websocket.c:323-342 | on such a sequence no chunk is refused before the last |
| `WsStream.RoomIffEveryFrameFits` | src/websocket.c:328-342 | the receive buffer has room at every cut if and only if every encoded frame fits the 65536 bytes |
| `WsStream.UniqueDecoding` | src/websocket.c:142-259 | two frame sequences with the same bytes are the same sequence, keys included |
| `WsStream.MiddleFrameAccumulates` | src/websocket.c:408-477 | with a fragment pending, a continuation appends to it and a PING is answered without touching it |
| `WsStream.FragmentReassembly` | src/websocket.c:374-440 | a first fragment, continuations with PING and PONG between them and a final continuation deliver one message with the first opcode and the concatenated payload, after the pongs, and leave nothing pending |
| `WsStream.WholeMessageIffBelowLimit` | src/websocket.c:374-440 | the whole message is delivered if and only if it is below the 10 MiB limit |
| `WsStream.RunsStayBounded` | src/websocket.c:323-440 | on every run of receives, sends and closes in which no frame length wraps, the pending fragment and all messages stay below the limit and the backlog within the buffer |
| `WsStream.TraceOnlyGrows` | src/websocket.c:371-486 | callbacks and sends are only ever appended, and do not depend on earlier ones |
| `WsStream.CloseHandshake` | src/websocket.c:296-319 | a stream that ends at its first CLOSE reports it once, answers it once with the same code unless this side closed first, and leaves the connection closed |
| `WsStream.ControlFramesAreTransparent` | src/websocket.c:371-486 | control frames, wherever they are interleaved, change no delivered message |
| `WsMeaning.DataFrameMeans` | src/websocket.c:374-406 | a text or binary frame that is final is delivered as a message, or drops a pending fragment; one that is not is kept as a fragment |
| `WsMeaning.ContinuationMeans` | src/websocket.c:408-440 | a continuation extends the pending fragment, or completes the message, below ten mebibytes, and is dropped otherwise |
| `WsMeaning.CloseFrameMeans` | src/websocket.c:442-468 | a CLOSE is reported with the number in its first two bytes and the rest as reason, and echoed with those two bytes unless this side is closing |
| `WsMeaning.PingMeans` | src/websocket.c:470-473 | a PING is answered by a PONG with the same payload, with or without a pending fragment, if the answer fits the send buffer |
| `WsMeaning.OtherFrameMeans` | src/websocket.c:475-485 | a PONG changes nothing, and any other opcode is reported as an error |
| `WsMeaning.LostMeans` | src/websocket.c:328-342 | the end of the stream, or a failed receive, is reported and closes the connection, and nothing is received on a closed one |
| `WsMeaning.SentCloseMeans` | src/websocket.c:296-319 | a CLOSE that this side sends reads as its code and its reason up to 123 bytes |
| `WsMeaning.FrameSizeIs` | src/websocket.c:196-259 | the size that sending compares with its buffer is the length of the encoded frame, written out |
| `WsMeaning.StreamSpeaks` | src/websocket.c:371-486 | the messages delivered over any frames are those that the data frames alone make up: whole ones, and first fragments joined with their continuations |
| `WsMeaning.FrontFrameIs` | src/websocket.c:345-369 | the front frame of a buffer by the bits and bytes of the buffer, the payload unmasked bit by bit |
| `WsMeaning.MessageOnTheWire` | src/websocket.c:323-406 | the bytes 0x80 plus opcode, 0x80 plus length, key and masked payload call the application back with exactly that message, for every short payload and every key |
| `WsConnection.Connection.constructor` | src/websocket.c:105-128 | a new connection is open, with an empty buffer and no fragment |
| `WsConnection.Connection.SendFrame` | src/websocket.c:263-274 | the frame that a receiver would read back is sent, if it fits the send buffer |
| `WsConnection.Connection.SendCloseFrame` | src/websocket.c:296-319 | sends code and reason, cut to 123 bytes, and moves to closing |
| `WsConnection.Connection.HandleClose` | src/websocket.c:442-468 | updates trace and state as the dispatch of a CLOSE does |
| `WsConnection.Connection.HandleData` | src/websocket.c:374-406 | starts a fragment or delivers a message as the dispatch of a data frame does |
| `WsConnection.Connection.HandleContinuation` | src/websocket.c:408-440 | extends, delivers or drops the fragment as the dispatch of a continuation does |
| `WsConnection.Connection.HandleFrame` | src/websocket.c:371-486 | performs the dispatch of one frame |
| `WsConnection.Connection.Shift` | src/websocket.c:488-490 | the bytes behind the frame move to the front of the buffer |
| `WsConnection.Connection.ExtractPayload` | src/websocket.c:364-369 | the payload, unmasked in place, is that of the front frame, and the bytes behind it are unchanged |
| `WsConnection.Connection.TakeFrame` | src/websocket.c:344-494 | one turn of the loop, with the test of the code, removes and dispatches exactly the front frame, or finds none, unless its length wraps |
| `WsConnection.Connection.Process` | src/websocket.c:323-494 | one call equals receiving the bytes in the stream model, over the shared buffer, unless it comes to a length that wraps |
| `Chunked.DecodeIffChunked` | src/cwebhttp.c:1632-1702 | soundness and completeness, at any address and with any room: the code decodes a text to a body exactly when the text is chunks with size lines, optional extensions, data and line ends, up to the end of input or a zero size, carrying that body, and the body has room; it leaves its buffers exactly when chunks lead it to a size line whose chunk would end behind the last address, so that the sum in the bounds test wraps, or when it decodes more than there is room for |
| `Chunked.HexDigitsAre` | src/cwebhttp.c:1648-1656 | a hexadecimal digit is worth its place in either alphabet, upper or lower case, and nothing else is a digit |
| `Chunked.SpelledSizeIsRead` | src/cwebhttp.c:1644-1668 | a size is read as the sum of its digits times powers of sixteen, with leading zeros and in any mixture of cases |
| `Chunked.AnySpellingDecodes` | src/cwebhttp.c:1632-1702 | a body framed in chunks whose sizes are spelled in any such way, with or without extensions, decodes to itself |
| `Chunked.EndTestIs` | src/cwebhttp.c:1686-1690 | the bounds test, an address sum in sixty-four bits, passes exactly the chunks that fit and those whose end wraps |
| `Chunked.DecodeAtIs` | src/cwebhttp.c:1632-1702 | the code decodes like the grammar unless it comes to a size that wraps or runs out of room |
| `Chunked.WrapsIffReached` | src/cwebhttp.c:1641-1686 | the decoder comes to a size that wraps exactly when chunks of the grammar lead to such a size line |
| `Chunked.DecodeParsed` | src/cwebhttp.c:1632-1702 | every text of the grammar decodes to the concatenation of its chunk data |
| `Chunked.ParseDecoded` | src/cwebhttp.c:1632-1702 | every text that decodes has such a parse, found from the text alone |
| `Chunked.WrittenIsDecoded` | src/cwebhttp.c:1685-1701 | the bytes written to the output buffer on success are as many as the body has |
| `Chunked.HexTextValue` | src/cwebhttp.c:1723-1728 | the hexadecimal text of a size has that value |
| `Chunked.DecodeInvertsEncode` | src/cwebhttp.c:1632-1747 | the encoding of any body, followed by any bytes, carries exactly the body |
| `Chunked.DecodeAtInvertsEncode` | src/cwebhttp.c:1632-1747 | decoding the encoding of any body, followed by any bytes, at any address, gives exactly the body if it has room, and overruns the room if not |
| `Chunked.EncodedLength` | src/cwebhttp.c:1706-1747 | the encoding is longer than the body by 8 for each full 4096-byte chunk, the digits and 4 for a shorter last one, and 5 |
| `Chunked.ReadDigits` | src/cwebhttp.c:1644-1668 | the loop stops behind the last digit with the value of the digits, and fails on a character that is neither line end nor extension |
| `Chunked.ReadSizeLine` | src/cwebhttp.c:1644-1673 | finds the size line of the rest of the text, or that there is none |
| `Chunked.DecodeChunked` | src/cwebhttp.c:1632-1702 | unless a buffer is overrun, the loop over the buffers, with the wrapping bounds test of the code, fails exactly when the model does, and else writes exactly the body |
| `Chunked.EncodeChunked` | src/cwebhttp.c:1706-1747 | the loop writes exactly the encoding |
| `HttpHeaders.ParseFormattedHeader` | src/cwebhttp.c:1093-1122 | a formatted header line parses to its key and value, up to its line end |
| `HttpHeaders.ParseFormattedHeaders` | src/cwebhttp.c:1151-1174 | a formatted header block parses to all headers, in order, and to the body behind the empty line, if the table of 16 pairs has room for them, and overruns the table otherwise |
| `HttpHeaders.ParsedHeaderIsHeader` | src/cwebhttp.c:1093-1122 | whatever the text, a parsed key holds no colon and a parsed value no line end and no leading blank |
| `HttpHeaders.ParsedHeadersAreHeaders` | src/cwebhttp.c:1151-1174 | so, as long as the table is not overrun, every header shown by the parser is one that a message can carry |
| `HttpHeaders.WithLengthAreHeaders` | src/cwebhttp.c:1416-1421 | the Content-Length that is added for a body is such a header |
| `HttpHeaders.TableIsOverrunIff` | src/cwebhttp.c:1151-1174 | the loop stays within the table of 16 pairs if and only if there are at most 16 header lines, and then it stores every one of them; its own bound of 32 comes too late |
| `HttpHeaders.WritesFitIff` | src/cwebhttp.c:1397-1425 | none of a sequence of bounded writes is cut short if and only if their joined text and a terminator fit the 1024 bytes |
| `Text.AtIgnoringCaseIff` | src/cwebhttp.c:1459-1477 | words are compared letter by letter, with the twenty-six pairs of letters taken as the same and nothing else |
| `HttpRequest.SeenIsSeenBefore` | src/cwebhttp.c:1125-1207 | for every buffer that parses, the terminators that the parser writes into it end the method and the path and change nothing else that is shown |
| `HttpRequest.TerminatedShape` | src/cwebhttp.c:1183-1203 | exactly two characters of the buffer are overwritten, both before the query and the headers |
| `HttpRequest.ParsedIsWellFormed` | src/cwebhttp.c:1125-1207 | whatever the buffer, if it parses, the method is a known one, the path ends before any blank or question mark, the query before any space, and the headers are ones that a message can carry |
| `HttpRequest.FormattedParts` | src/cwebhttp.c:1390-1435 | where the parts of a formatted request lie |
| `HttpRequest.ParseFindsPositions` | src/cwebhttp.c:1125-1207 | parsing a formatted request finds exactly those positions, or overruns the header table when there are more than 16 headers with the added one |
| `HttpRequest.ParseInvertsFormat` | src/cwebhttp.c:1125-1435 | a well-formed request whose head fits the formatter and whose headers fit the table formats to bytes that parse to its method, path, query, headers in order with the added Content-Length, and body |
| `HttpRequest.EmptyTargetIsLost` | src/cwebhttp.c:1048-1073 | a request with neither path nor query does not survive formatting and parsing |
| `HttpRequest.RoundTripIffCarried` | src/cwebhttp.c:1125-1435 | a request of C strings survives exactly when it is well-formed, its head and a terminator fit the 1024 bytes of the formatter, and its headers fit the 16 pairs of the parser |
| `HttpRequest.ParseOverrunsIff` | src/cwebhttp.c:1125-1174 | the parser writes outside its header table exactly on a request line with more than 16 header lines behind it |
| `HttpRequest.FormatIsCompleteIff` | src/cwebhttp.c:1390-1425 | the formatter cuts none of its writes short if and only if the head and a terminator fit the 1024 bytes |
| `HttpResponse.StatusReadsBack` | src/cwebhttp.c:1210-1244 | a formatted status reads back exactly when it has three digits |
| `HttpResponse.StatusLineReadsBack` | src/cwebhttp.c:1210-1244 | the status line of a formatted response reads back exactly when the status is between 100 and 999 |
| `HttpResponse.CodingsIffNamed` | src/cwebhttp.c:1293-1331 | the searches in the zero-copy header values find the chunked coding and the content coding exactly when a header that is shown names them |
| `HttpResponse.SameHeaders` | src/cwebhttp.c:1308-1341 | copying a decoded or decompressed body over the body leaves every header as it was |
| `HttpResponse.ParseBodyIs` | src/cwebhttp.c:1286-1344 | what becomes of the body depends only on the headers that are shown: both codings that they name are removed, or a buffer is overrun |
| `HttpResponse.SeenIs` | src/cwebhttp.c:1247-1347 | for every buffer that parses, removing the codings of the body in place leaves every header as it was and shows the plain body |
| `HttpResponse.ParsedIsWellFormed` | src/cwebhttp.c:1247-1347 | whatever the buffer, if it parses, the headers shown are ones that a message can carry, and the status is that of the status line |
| `HttpResponse.MessageReadsBack` | src/cwebhttp.c:1247-1347 | a status line with three digits, carried headers and a body read back as themselves, the body without the codings that the headers name, if the table has room for the headers and the body does not overrun; otherwise the parser does |
| `HttpResponse.ParseInvertsFormat` | src/cwebhttp.c:1247-1387 | a response with a three-digit status, carried headers and room for its parts formats to bytes that parse to the same status, headers and plain body |
| `HttpResponse.RoundTripIffCarried` | src/cwebhttp.c:1247-1387 | and only such a response does: its head fits the 1024 bytes of the formatter, its headers the 16 pairs of the parser, a chunked body leads to no size that wraps and decodes to at most 16384 bytes, and a decompressed body is no longer than the body |
| `HttpResponse.ChunkedResponseShowsBody` | src/cwebhttp.c:1286-1312 | a response whose body is the chunked encoding of a text, and whose headers say so and name no compression, shows that text if and only if the text has at most 16384 bytes |
| `HttpResponse.EncodedFitsIff` | src/cwebhttp.c:1299-1312 | decoding the encoding of a text stays within its buffers, wherever it lies, if and only if the text has at most 16384 bytes |
| `HttpResponse.ParseOverrunsIff` | src/cwebhttp.c:1247-1347 | the parser writes outside a table, a buffer or the text exactly on a status line with more than 16 header lines behind it, or with a body that its headers say to be chunked and that leads to a size that wraps or decodes to more than 16384 bytes, or that they say to be compressed and that becomes longer |
| `HttpResponse.FormatIsCompleteIff` | src/cwebhttp.c:1350-1379 | the formatter cuts none of its writes short if and only if the head and a terminator fit the 1024 bytes |
| `HttpGrammar.RequestLineIff` | src/cwebhttp.c:1006-1149 | the request line parser accepts exactly: one of the five methods, spaces and tabs after a space, a target without spaces, the same again, HTTP/1.1 or HTTP/1.0, and a line end; and it finds path, query and headers where they are |
| `HttpGrammar.HeaderLineIff` | src/cwebhttp.c:1093-1122 | the header parser accepts exactly a key without colon, a colon, blanks, a value without a line end that starts with no blank, and a line end; and key and value are what is shown |
| `HttpGrammar.StatusLineIff` | src/cwebhttp.c:1210-1244 | the status line parser accepts exactly HTTP/1.1 or HTTP/1.0, blanks, three decimal digits, and anything up to the first line end; and the status is the decimal value |
| `HttpGrammar.DecimalIs` | src/cwebhttp.c:1358-1372 | a number is written with its decimal digits, without leading zeros |
| `HttpGrammar.SignedDecimalIs` | src/cwebhttp.c:1358 | a status is written with those of its amount, behind a minus sign if it is negative |
| `HttpMeaning.LengthIsAnnounced` | src/cwebhttp.c:1368-1373 | a message with a body is formatted with one further header, Content-Length with the length in decimal digits, and one without a body with none |
| `HttpMeaning.CodingsAreDeclared` | src/cwebhttp.c:1293-1332 | a coding is found exactly when the first header whose key starts with Transfer-Encoding or Content-Encoding, in any case of the letters, has a value that starts with chunked, gzip or deflate, in any case |
| `HttpMeaning.UncodedIsShown` | src/cwebhttp.c:1247-1347 | a formatted response with neither shows its body |
| `HttpMeaning.CompressedIsShown` | src/cwebhttp.c:1315-1343 | a compressed one shows the decompressed body exactly when that is no longer than the compressed one, and its body as it is when decompression fails |
| `HttpMeaning.ChunksAreShown` | src/cwebhttp.c:1292-1343 | a chunked body of at most 16384 bytes is uncoded first, and then decompressed if that is declared too |
| `HttpMeaning.UnchunkedIsShown` | src/cwebhttp.c:1295-1312 | a body that is declared chunked and is not is shown as it is |
| `HttpBuffers.SkipToCrlf` | src/cwebhttp.c:990-995 | the cursor stops at the first line end, or at the last place where one could start |
| `HttpBuffers.ReadHeader` | src/cwebhttp.c:1093-1122 | the cursor loops find the positions of the header model |
| `HttpBuffers.ReadHeaders` | src/cwebhttp.c:1151-1174 | the loop over header lines fills the array of 16 pairs with all slots, and finds the body, whenever there are at most 16 header lines |
| `HttpBuffers.EndPath` | src/cwebhttp.c:1195-1203 | writes one terminator, at the first character that ends a path |
| `HttpBuffers.ReadRequestLine` | src/cwebhttp.c:1125-1148 | the cursor reads the request line of the model |
| `HttpBuffers.ParseRequest` | src/cwebhttp.c:1125-1207 | whenever the header table is not overrun, parsing in place returns the positions of the model and leaves the buffer with exactly the two terminators |
| `HttpBuffers.ReadStatusLine` | src/cwebhttp.c:1210-1244 | the cursor reads the status line of the model |
| `HttpBuffers.FindHeader` | src/cwebhttp.c:1459-1477 | the first header whose key starts with the word, upper and lower case being the same |
| `HttpBuffers.RemoveChunks` | src/cwebhttp.c:1293-1312 | the chunked body is decoded into a buffer of its own and copied back, or left as it is when it does not decode |
| `HttpBuffers.ReadBody` | src/cwebhttp.c:1286-1344 | both codings are removed from the body in place as in the model |
| `HttpBuffers.ParseResponse` | src/cwebhttp.c:1247-1347 | whenever no table or buffer is overrun, parsing in place returns the positions of the model, with the plain body written over the one received |
| `HttpBuffers.Snprintf` | src/cwebhttp.c:1397-1414 | as much as fits is written with a terminator, and the full length returned |
| `HttpBuffers.FormatRequest` | src/cwebhttp.c:1390-1435 | the buffer holds exactly the formatted request |
| `HttpBuffers.FormatResponse` | src/cwebhttp.c:1350-1387 | the buffer holds exactly the formatted response |
| `Handlers.AsMapKeys` | src/async/epoll.c:65-75 | the map that a handler list stands for has exactly its descriptors |
| `Handlers.RemovalRemoves` | src/async/epoll.c:182-204 | taking one handler out of the list takes its descriptor, and nothing else, out of the map |
| `Handlers.UpdateUpdates` | src/async/epoll.c:143-168 | changing a handler in place changes the map at its descriptor alone |
| `Handlers.AdditionAdds` | src/async/epoll.c:104-140 | a handler at the head adds its descriptor to the map |
| `Handlers.MadeOnce` | src/async/epoll.c:104-205 | what a call has to leave at every descriptor determines the registry afterwards |
| `HandlerLists.HandlerList.Find` | src/async/epoll.c:65-75 | the walk returns the first entry of a descriptor, or null when there is none |
| `HandlerLists.HandlerList.Prepend` | src/async/epoll.c:135-137 | the new entry comes in front of the others |
| `HandlerLists.HandlerList.Unlink` | src/async/epoll.c:183-204 | the pointer past an entry removes exactly that entry |
| `HandlerLists.HandlerList.Remove` | src/async/epoll.c:182-204 | the first entry of the descriptor is removed, if there is one |
| `HandlerLists.HandlerList.SetEvents` | src/async/epoll.c:143-168 | the events of one entry change, in place |
| `HandlerLists.HandlerList.RemoveHead` | src/async/wsapoll.c:141-149 | the entry just added is taken off again |
| `Epoll.AgreementKeptIff` | src/async/epoll.c:104-205 | a call keeps handlers and kernel interest in agreement if and only if it is not a modification that changes something and that the kernel refuses, because the handler has been changed before the kernel is asked |
| `Epoll.AgreementOverRuns` | src/async/epoll.c:104-205 | while system calls succeed, the kernel watches every registered descriptor for exactly its events after any number of calls |
| `Epoll.CallIs` | src/async/epoll.c:104-205 | a call returns 0 exactly when it is permitted, finds memory and the kernel goes along, and then it has been made at its descriptor and nowhere else; otherwise -1, and what stays the same |
| `Epoll.KernelIs` | src/async/epoll.c:104-205 | the kernel watches the descriptor of a call that it took as the call says, and every other one as before |
| `Epoll.DispatchAppend` | src/async/epoll.c:208-234 | dispatching a batch in two parts is dispatching it whole |
| `Epoll.InvokedPerform` | src/async/epoll.c:208-234 | nothing changes the loop during a batch but the changes that the invoked callbacks make, one callback after the other |
| `Epoll.InvokedIffRegisteredThen` | src/async/epoll.c:208-234 | a ready descriptor is invoked exactly when it is registered after everything earlier callbacks of the batch did, and then with its input, output and error or hang-up bits as read, write and error, and with the callback and data registered at that moment |
| `Epoll.ReportedIsRegistered` | src/async/epoll.c:208-234 | a report of what the kernel watches reaches the callback registered for it with no event that it is not registered for but an error, unless a callback of the batch changes the descriptor |
| `Epoll.RemovedIsNeverInvoked` | src/async/epoll.c:208-234 | a removed descriptor is never invoked in the rest of the batch unless a callback adds it again |
| `Epoll.EpollRegistry.AddHandler` | src/async/epoll.c:104-140 | registry, kernel and result follow the map model, in all error cases too |
| `Epoll.EpollRegistry.ModHandler` | src/async/epoll.c:143-168 | registry, kernel and result follow the map model |
| `Epoll.EpollRegistry.DelHandler` | src/async/epoll.c:171-205 | registry, kernel and result follow the map model |
| `Epoll.EpollRegistry.TargetOf` | src/async/epoll.c:65-75 | the callback and data registered for a descriptor, if any |
| `Epoll.EpollRegistry.Deliver` | src/async/epoll.c:216-231 | one ready descriptor is looked up again before its callback, which may change the registry, runs with the events of its bits |
| `Epoll.EpollRegistry.Wait` | src/async/epoll.c:208-234 | the loop over the ready descriptors makes exactly the invocations of the model, under any script of changes by callbacks |
| `Kqueue.ChangedAt` | src/async/kqueue.c:139-175 | of a list of changes to different filters, each filter shows its own change, if there is one |
| `Kqueue.DifferencesAre` | src/async/kqueue.c:139-175 | the computed changes are exactly the filters on which the events before and after differ |
| `Kqueue.AgreementKeptIff` | src/async/kqueue.c:79-237 | a call keeps handlers and kernel filters in agreement if and only if the kernel does not take only a part of its change list, nor refuse a deletion, after which the handler goes away all the same |
| `Kqueue.AgreementOverRuns` | src/async/kqueue.c:79-237 | while change lists are taken whole, the filters are exactly the wanted ones after any number of calls |
| `Kqueue.CallIs` | src/async/kqueue.c:79-237 | a call returns 0 exactly when it is permitted, finds memory and, unless it is a deletion, the kernel takes every change needed; then it has been made, and otherwise the handlers stay |
| `Kqueue.KqueueRegistry.AddHandler` | src/async/kqueue.c:79-125 | registry, filters and result follow the model |
| `Kqueue.KqueueRegistry.ModHandler` | src/async/kqueue.c:128-179 | registry, filters and result follow the model |
| `Kqueue.KqueueRegistry.DelHandler` | src/async/kqueue.c:182-237 | registry, filters and result follow the model |
| `Select.LargestFdIsMaximum` | src/async/select.c:65-75 | the walk over the list computes it |
| `Select.CallIs` | src/async/select.c:78-158 | a call succeeds exactly when it is permitted and an addition finds memory; it changes its descriptor and no other |
| `Select.SelectRegistry.UpdateMaxFd` | src/async/select.c:65-75 | the cached maximum is recomputed from the list |
| `Select.SelectRegistry.AddHandler` | src/async/select.c:78-106 | the map model is followed and the cached maximum stays the maximum, by the validity of the object |
| `Select.SelectRegistry.ModHandler` | src/async/select.c:109-123 | the map model is followed, the maximum unchanged |
| `Select.SelectRegistry.DelHandler` | src/async/select.c:126-158 | the map model is followed and the cached maximum stays the maximum |
| `WsaPoll.ApplyRefinesMap` | src/async/wsapoll.c:119-197 | each call changes the map as the other registries do, or, failing, nothing at all |
| `WsaPoll.CallIs` | src/async/wsapoll.c:119-197 | a call succeeds exactly when it is permitted and an addition finds memory for its entry and, with all slots taken, for more slots; it changes its descriptor and no other |
| `WsaPoll.SlotsAsk` | src/async/wsapoll.c:96-113 | slot i asks for the descriptor, the read and the write event of handler i |
| `BackEnds.OneCallAlike` | src/async/epoll.c:104-205 | a call on each of the four back ends leaves the same handlers in all and gets the same answer from all |
| `BackEnds.BackEndsAgree` | src/async/epoll.c:104-205 | whatever the calls, epoll, kqueue, select and WSAPoll give the same answers and end with the same handlers, which the kernels of the first two watch |
| `WsaPoll.OnlyAdditionsGrow` | src/async/wsapoll.c:73-116 | removing and modifying never need a larger array, adding only when it is full, and then it grows to sixteen more than are needed |
| `WsaPoll.PollRegistry.FillSlots` | src/async/wsapoll.c:96-113 | slot i holds the descriptor and the translated events of handler i |
| `WsaPoll.PollRegistry.RebuildPollFds` | src/async/wsapoll.c:73-116 | the array mirrors the list, or the old array is left as it was when it cannot grow |
| `WsaPoll.PollRegistry.AddHandler` | src/async/wsapoll.c:119-152 | the array still mirrors the list, which a failed reallocation restores |
| `WsaPoll.PollRegistry.ModHandler` | src/async/wsapoll.c:155-170 | the array still mirrors the list |
| `WsaPoll.PollRegistry.DelHandler` | src/async/wsapoll.c:173-197 | the array still mirrors the list |
| `AsyncServer.BuildResponse` | src/async/server.c:982-1016 | a response put into the send buffer is not empty and fits it |
| `AsyncServer.RegistryAfterClose` | src/async/server.c:529-569 | closing a connection takes exactly its descriptor out of registry and kernel |
| `AsyncServer.RegistryAfterUpdate` | src/async/server.c:790-793 | switching what a connection waits for changes the registry and the kernel to match |
| `AsyncServer.RegistryAfterAdmission` | src/async/server.c:677-683 | an accepted connection is registered for reading |
| `AsyncServer.CloseKeepsInv` | src/async/server.c:529-569 | closing a connection keeps count, bytes, registry and census |
| `AsyncServer.SweepKeepsInv` | src/async/server.c:576-607 | the idle sweep keeps them |
| `AsyncServer.AcceptKeepsInv` | src/async/server.c:622-684 | so does an accepted socket, also when its registration fails and it is closed again |
| `AsyncServer.AcceptAllKeepsInv` | src/async/server.c:614-685 | so does the accept loop, which stays within the limit |
| `AsyncServer.RespondKeepsInv` | src/async/server.c:982-1023 | so does a response put into the send buffer |
| `AsyncServer.OnReadKeepsInv` | src/async/server.c:745-767 | so does a readable connection, whatever reading finds |
| `AsyncServer.OnWriteKeepsInv` | src/async/server.c:769-800 | so does a writable connection, whatever send takes |
| `AsyncServer.OnConnectionKeepsInv` | src/async/server.c:688-806 | so does any event on a connection |
| `AsyncServer.StartKeepsInv` | src/async/server.c:309-327 | so does starting to listen, also when the registration fails |
| `AsyncServer.StopKeepsInv` | src/async/server.c:330-357 | so does stopping |
| `AsyncServer.StepKeepsInv` | src/async/server.c:330-1023 | every step keeps the count, the bytes of every connection, the agreement with the registry, and each connection listed or closed once |
| `AsyncServer.ReachableStatesKeepInv` | src/async/server.c:330-1023 | so every state that any schedule of events leads to has them |
| `ServerRuns.DispatchDataIsLive` | src/async/server.c:688-699 | the data registered with the connection callback is always a connection that is still listed and owns the descriptor |
| `ServerRuns.NothingElseIsRegistered` | src/async/server.c:330-357 | a registered descriptor is the listening one or a listed connection's |
| `ServerRuns.ClosedOnce` | src/async/server.c:529-569 | no connection is closed twice, and none that has been closed is still listed |
| `ServerRuns.SweepIsFilter` | src/async/server.c:576-607 | the sweep leaves the connections that are not over-idle, in order, closes each other one once, in order, and takes one off the count for each |
| `ServerRuns.CloseAllEmpties` | src/async/server.c:349-356 | the loop that saves the next connection before closing closes all of them |
| `ServerRuns.StopLeavesNothing` | src/async/server.c:330-357 | after stop nothing is listed, registered or watched by the kernel, and everything listed before is closed |
| `ServerRuns.StepExtends` | src/async/server.c:330-1023 | no step loses a connection or takes back bytes that were built or sent |
| `ServerRuns.LaterExtends` | src/async/server.c:330-1023 | so over a run, what is on the wire of a connection is only ever added to, and what is closed stays closed |
| `ServerRuns.RunIsStepAll` | src/async/epoll.c:243-254 | the states of a run are those that its events lead to, and all of its events are feasible there |
| `ServerRuns.ServerAndRegistryAgree` | src/async/server.c:330-806 | in every reachable state the count is the list's length within the limit, the registered descriptors are the listening one while the server runs and one per connection, and the kernel watches a writing connection for writing and every other for reading |
| `ServerRuns.BytesAreConserved` | src/async/server.c:769-1023 | in every reachable state the bytes send has taken are a prefix of the responses built, all of them when the connection reads again, and while it writes the rest is in its buffer, which is at most 65536 bytes and not sent in full |
| `ServerAnswers.RequestIsAnswered` | src/async/server.c:745-767 | a complete request on a reading connection is answered in the same step if the head of the response fits 65536 bytes: the message is added to the bytes built and is all that is to be sent, the connection writes and is watched for writing |
| `ServerAnswers.MessageReadsBack` | src/async/server.c:992-1022 | that message is one which the response parser of the library reads, with status, headers and as much of the body as was sent |
| `ServerAnswers.OtherReads` | src/async/server.c:745-767 | a failed read closes the connection, an incomplete request leaves it reading, and one without a response leaves it processing |
| `ServerAnswers.AnswerIsSent` | src/async/server.c:769-800 | exactly the bytes that send takes go from the buffer onto the wire; after the last one the connection reads again, watched for that, if it is kept alive, and is closed if not |
| `ServerAnswers.OtherSends` | src/async/server.c:769-777 | a send that would block changes nothing, one that fails or takes nothing closes the connection |
| `ServerAnswers.ErrorsEnd` | src/async/server.c:688-720 | an error event closes the connection, whatever it is doing |
| `ServerAnswers.OtherEventsTouch` | src/async/server.c:688-806 | an event that the connection is not waiting for only counts as activity |
| `ServerAnswers.FreshAre` | src/async/server.c:576-607 | the sweep leaves exactly the connections with an event in the last ten seconds and closes exactly the others |
| `ServerAnswers.ListenStarts` | src/async/server.c:309-327 | starting to listen registers the socket for reading and nothing else, or leaves the server as it was |
| `ServerAnswers.ListenReadyMeans` | src/async/server.c:614-685 | an event of the listening socket sweeps first and then accepts |
| `ServerAnswers.AcceptAllAppend` | src/async/server.c:622-684 | accepting in two goes is accepting once |
| `ServerAnswers.AcceptedIsListed` | src/async/server.c:622-684 | a socket accepted with room becomes the first listed connection, reading and registered for that, or is closed again when it cannot be registered |
| `ServerAnswers.StopMeans` | src/async/server.c:330-357 | stopping a running server closes every connection, deregisters everything and watches nothing; a stopped one stays as it is |
| `ServerObjects.ServerObject.constructor` | src/async/server.c:140-165 | a new server has no connections and is not running |
| `ServerObjects.ServerObject.CreateConnection` | src/async/server.c:479-526 | the new connection is the head of the list, reading, and counted |
| `ServerObjects.ServerObject.Relink` | src/async/server.c:555-565 | the pointer past a connection takes exactly that one out of the list |
| `ServerObjects.ServerObject.CloseConnection` | src/async/server.c:529-569 | deregisters, unlinks and uncounts exactly the given connection |
| `ServerObjects.ServerObject.SetAgain` | src/async/server.c:591-601 | setting the pointer past a connection that closing has already unlinked changes nothing |
| `ServerObjects.ServerObject.CheckAndCloseIdle` | src/async/server.c:576-607 | the walk over the list, closing as it goes, is the sweep of the step model |
| `ServerObjects.ServerObject.Accept` | src/async/server.c:622-684 | one turn of the accept loop, with its failures, is that of the step model |
| `ServerObjects.ServerObject.ListenHandler` | src/async/server.c:614-685 | the handler of the listening socket is the sweep and the accepts of the step model |
| `ServerObjects.ServerObject.SendResponse` | src/async/server.c:982-1023 | the response is in the send buffer, the connection writing and watched for it, or nothing has changed |
| `ServerObjects.ServerObject.WriteResponse` | src/async/server.c:922-950 | what send takes is added to the wire and to the offset; the result says whether all, part or nothing could be sent |
| `ServerObjects.ServerObject.HandleRead` | src/async/server.c:745-767 | a readable connection goes through the read of the step model |
| `ServerObjects.ServerObject.HandleWrite` | src/async/server.c:769-800 | a writable connection goes through the write of the step model |
| `ServerObjects.ServerObject.ConnectionHandler` | src/async/server.c:688-806 | an event on a connection is that of the step model |
| `ServerObjects.ServerObject.Listen` | src/async/server.c:309-327 | starts as the step model does, or is stopped again when the registration fails |
| `ServerObjects.ServerObject.Stop` | src/async/server.c:330-357 | the walk that closes every connection is the stop of the step model |
| `ServerObjects.ServerObject.Follow` | src/async/epoll.c:226-229 | the data registered for a descriptor with the connection callback leads to the connection that is still listed and owns the descriptor |
| `ServerObjects.ServerObject.Dispatch` | src/async/epoll.c:222-231 | a call, or a ready descriptor looked up in the registry and handled by the callback found there, is one step of the step model, and keeps its invariant |
| `ServerObjects.ServerObject.Run` | src/async/epoll.c:208-255 | any schedule of calls and ready descriptors, in any batches, leads the object through the steps of the step model |
| `ServedResponse.ServedHeadIs` | src/async/server.c:992-1000 | the one format string of the server writes the same text as a status line and its three headers one by one |
| `ServedResponse.ServedResponseReadsBack` | src/async/server.c:982-1016 | the library's own response parser reads, in what the server puts into a send buffer, the status, the three headers and as much of the body as fits; the announced length is that of the body sent if and only if head and body fit the 65536 bytes |
| `Pool.SearchedIs` | src/cwebhttp.c:94-134 | the search keeps, drops and hands out what the position of the first fresh match says |
| `Pool.GetFromIs` | src/cwebhttp.c:94-134 | splicing on the way is the same as that search |
| `Pool.GetIs` | src/cwebhttp.c:94-134 | get hands out the most recently pooled match that has not expired, closes exactly the matches before it, all of them expired, and keeps everything else in order |
| `Pool.GetByRecency` | src/cwebhttp.c:94-134 | in order of last use, get hands out the match used last and closes nothing, or finds none and closes every match |
| `Pool.GetMeans` | src/cwebhttp.c:94-134 | get hands out a connection to that host and port used in the last sixty seconds whenever there is one, closes only older ones to that host and port, and keeps every other connection |
| `Pool.ReturnMeans` | src/cwebhttp.c:137-180 | a connection that may be kept becomes the first of a pool of less than ten, and is closed otherwise |
| `Pool.ReturnThenGet` | src/cwebhttp.c:94-180 | what has just been returned is what the next get for its host and port hands out, and the pool is as it was |
| `Pool.StepKeepsInv` | src/cwebhttp.c:94-203 | every get, return and cleanup keeps size, order and the place of every connection |
| `Pool.ReturnedIsHeldAgain` | src/cwebhttp.c:94-180 | over the events, too, returning and getting again undo each other |
| `Pool.EachInOnePlace` | src/cwebhttp.c:94-203 | over any run the size is the list's length and at most ten, and every connection is pooled once, held once or closed once |
| `Pool.GetInRuns` | src/cwebhttp.c:94-134 | over any run, a get that finds something closes nothing, and one that finds nothing leaves no match behind |
| `PoolObjects.ConnectionPool.Relink` | src/cwebhttp.c:113-125 | the pointer past a connection takes exactly that one out of the list, which stays acyclic |
| `PoolObjects.ConnectionPool.GetConnection` | src/cwebhttp.c:94-134 | the walk with its splices is the get of the model, and what it returns is no longer linked |
| `PoolObjects.ConnectionPool.ReturnConnection` | src/cwebhttp.c:137-180 | the connection becomes the head, or is closed when it may not be kept or the pool is full |
| `PoolObjects.ConnectionPool.CleanUp` | src/cwebhttp.c:183-203 | every pooled connection is closed and the pool is empty |
| `Cookies.TrimmedIffUnchanged` | src/cwebhttp.c:267-286 | a trimmed text has no blank in front and no white space at its end beyond the first character, and trimming changes nothing exactly on such texts |
| `Cookies.TrimmedIs` | src/cwebhttp.c:267-286 | trimming takes spaces and tabs off the front and white space off the end, and nothing else |
| `Cookies.AttributeMeans` | src/cwebhttp.c:347-367 | each of the four attributes sets its field, its name being spelled in any mixture of cases |
| `Cookies.OtherAttributeMeans` | src/cwebhttp.c:347-367 | an attribute that starts with none of the four names changes nothing |
| `Cookies.NamedMeans` | src/cwebhttp.c:308-330 | the first equals sign ends the name; without one there is neither name nor value; the domain is the host and the path / |
| `Cookies.HeaderMeans` | src/cwebhttp.c:295-335 | the first 2047 characters of a header are read: the pair up to the first semicolon, then the attributes |
| `Cookies.AttributesReadBack` | src/cwebhttp.c:332-374 | a list of attributes separated by semicolons is read one by one |
| `Cookies.AttributeReadsBack` | src/cwebhttp.c:347-368 | each attribute sets its own field and no other |
| `Cookies.ParseInvertsFormat` | src/cwebhttp.c:290-374 | reading the header written for a cookie gives the cookie back, whatever host it comes from |
| `Cookies.ParsedIsCarried` | src/cwebhttp.c:290-374 | whatever the header, the parts read from it are trimmed and free of semicolons, and the name of equals signs |
| `Cookies.RoundTripIffCarried` | src/cwebhttp.c:290-374 | a cookie whose header is not cut off reads back exactly when its parts are so |
| `CookieJar.JarIsUnique` | src/cwebhttp.c:376-392 | no two cookies of the jar have the same name, domain and path |
| `CookieJar.AddHolds` | src/cwebhttp.c:376-396 | replacing the first such cookie and adding in front keeps the jar the current cookies of its history |
| `CookieJar.JarHoldsTheLast` | src/cwebhttp.c:290-397 | over any history of headers the jar holds exactly the cookies that no later one replaced, most recent first, with the values set last |
| `CookieJar.CurrentIff` | src/cwebhttp.c:376-392 | a cookie counts as replaced exactly when a later one has the same name, domain and path |
| `CookieJar.DomainMatchesIff` | src/cwebhttp.c:401-430 | the domain test accepts exactly the domain itself and, for a leading dot, the hosts below it; contrary to the comment above it, not the domain without the dot, because that comparison is made only for domains too long to pass it |
| `CookieJar.IsSentIff` | src/cwebhttp.c:399-441 | a cookie is sent to its own host, to the hosts below a domain with a leading dot, and with the paths that its path begins |
| `CookieJar.TailLength` | src/cwebhttp.c:458-482 | every nameless cookie behind a named one leaves a stray separator |
| `CookieJar.WriteCookieMeans` | src/cwebhttp.c:463-480 | one cookie is printed behind a separator, unless it is the first or the 4096 bytes are nearly full; what does not fit is cut off but counted, and printing overruns the buffer exactly when more than 4096 have been counted |
| `CookieJar.EmitIsEmitted` | src/cwebhttp.c:446-492 | while all of it fits the 4096 bytes, the buffer holds every separator and pair that the loop writes |
| `CookieJar.EmitExtends` | src/cwebhttp.c:446-492 | whatever is written later, what is in the buffer stays, and unless an offset behind its end overruns it, it is never filled beyond its terminator |
| `CookieJar.GetSendsTheMatchingIff` | src/cwebhttp.c:446-492 | the buffer has room for everything and the text is the named cookies that pass both tests, most recent first, joined by "; ", if and only if no nameless cookie passes them behind a named one and the text and a terminator fit the 4096 bytes; without such a nameless one, the text is that if and only if it fits |
| `CookieJar.NewestIsSentFirst` | src/cwebhttp.c:290-492 | a named cookie just set comes first in what is sent with every request it matches, whole if the text fits, else as far as the 4096 bytes reach, unless later cookies overrun them |
| `CookieJarObjects.FindEnd` | src/cwebhttp.c:277-280 | the walk from the end stops where the trimmed text ends |
| `CookieJarObjects.TrimInPlace` | src/cwebhttp.c:267-286 | the buffer starts with the trimmed text |
| `CookieJarObjects.ParseSetCookie` | src/cwebhttp.c:290-374 | copying the header, cut to 2047 characters, and splitting and walking the copy in place reads the cookie of the model |
| `CookieJarObjects.ParseAttributes` | src/cwebhttp.c:332-374 | the walk over the copy, which ends each attribute at the semicolon behind it, reads the attributes of the model |
| `CookieJarObjects.ParseAttribute` | src/cwebhttp.c:347-367 | an attribute in the copy sets the field that it sets in the model, its value trimmed in a copy of its own |
| `CookieJarObjects.ParsePair` | src/cwebhttp.c:316-330 | the name and the value are split in the copy at the first equals sign, and nothing behind the pair changes |
| `CookieJarObjects.TrimmedCopy` | src/cwebhttp.c:267-286 | a part of the buffer, copied and trimmed in its own memory, is the trimmed part |
| `CookieJarObjects.AppendCookie` | src/cwebhttp.c:463-482 | one cookie is written behind the text so far, with its separator, cut off at the end of the 4096 bytes but counted in full |
| `CookieJarObjects.Jar.RemoveSame` | src/cwebhttp.c:376-392 | the first cookie that is the same one is unlinked, if there is one |
| `CookieJarObjects.Jar.AddCookie` | src/cwebhttp.c:290-397 | the list after a header is that of the model |
| `CookieJarObjects.Jar.GetCookies` | src/cwebhttp.c:446-492 | unless the buffer is overrun, it holds the text of the model, cut off where that is |
| `Redirect.FollowNeverRepeats` | src/cwebhttp.c:2466-2603 | from any state of the visited table, the requests to come are at most as many as are left, to different URLs and to none in the table |
| `Redirect.NoRedirectLoop` | src/cwebhttp.c:2451-2603 | whatever the servers answer, at most ten requests are made, to pairwise different URLs, although the table cuts URLs off |
| `Redirect.MethodAndBody` | src/cwebhttp.c:2586-2598 | each request goes where the reply before it points; a POST becomes GET at the first 302 or 303, and the body is sent exactly while the method is the original one |
| `Redirect.RequestFollowsReply` | src/cwebhttp.c:2526-2598 | a request follows the one before it only on a reply with status 301, 302, 303, 307 or 308 and a location, to that location as far as 2047 characters hold it; only 302 and 303 change the method, and only from POST |
| `Redirect.MethodChangesOnce` | src/cwebhttp.c:2443-2449 | the method changes at most once, from POST to GET, and the body is gone from then on |
| `Redirect.SucceedsIffAnswered` | src/cwebhttp.c:2513-2524 | the chain succeeds exactly when its last request is answered by something other than a redirect, with that status |
| `Redirect.SucceedsUnlessRedirected` | src/cwebhttp.c:2513-2524 | so it succeeds exactly when its last request, one of at most ten, is answered with none of the five redirect statuses |
| `Redirect.EndsIffRevisits` | src/cwebhttp.c:2526-2584 | while requests are left and the next URL can be reached, a redirect ends the chain exactly when it points to a URL already requested, as far as the table holds it |
| `Redirect.RequestSimple` | src/cwebhttp.c:2451-2603 | the loop over the visited table makes the requests of the model |
| `Redirect.WasVisited` | src/cwebhttp.c:2576-2584 | the table is searched up to and including the current URL |
| `Memcheck.TrackMeans` | src/memcheck.c:54-84 | a block is entered last and counted in all totals exactly when there is one, the tracker is on and has fewer than 10000 entries; else nothing changes |
| `Memcheck.UntrackMeans` | src/memcheck.c:86-106 | a pointer in the table takes one entry out of the multiset and its size off the current bytes; any other pointer changes nothing |
| `Memcheck.ZeroedMeans` | src/memcheck.c:112-193 | starting and resetting empty the table and zero every number, and a second start changes nothing |
| `Memcheck.SwapRemoveTakesOne` | src/memcheck.c:100-105 | moving the last entry into the emptied slot removes exactly one entry from the multiset |
| `Memcheck.SumAfterRemoval` | src/memcheck.c:95-105 | and takes its size off the sum |
| `Memcheck.SwapRemoveFromMap` | src/memcheck.c:100-105 | and its pointer out of the map that the table stands for |
| `Memcheck.StepLists` | src/memcheck.c:54-256 | whatever is called, the table lists exactly the blocks that ought to be tracked, each once |
| `Memcheck.StepAccounts` | src/memcheck.c:54-256 | whatever is called, the counters are right for the table and the peaks follow it |
| `Memcheck.StepKeepsInv` | src/memcheck.c:54-256 | both together, with the peaks the maxima of the history |
| `Memcheck.RunsKeepAccounts` | src/memcheck.c:54-256 | over any run, with a full table or untracked pointers as well: allocations less frees is the number of entries, at most 10000, current bytes is their sum, and both peaks are the maxima since the statistics were last zeroed |
| `Memcheck.CompleteKeptIff` | src/memcheck.c:189-256 | every live block stays tracked if and only if the tracker is not shut down or reset over live blocks, no block is allocated with the table full, and no realloc fails and keeps its block, as one to size zero that frees it does not |
| `Memcheck.LeaksAreLiveBlocks` | src/memcheck.c:184-187 | while that holds, the number of leaks reported is the number of live blocks |
| `MemcheckObjects.AllocationTracker.FindSlot` | src/memcheck.c:42-52 | the walk returns the first slot of a pointer, or -1 |
| `MemcheckObjects.AllocationTracker.AddAllocation` | src/memcheck.c:54-84 | table and statistics follow the model, also when the table is full |
| `MemcheckObjects.AllocationTracker.RemoveAllocation` | src/memcheck.c:86-106 | table and statistics follow the model, also for a pointer not in the table |
| `MemcheckObjects.AllocationTracker.Initialize` | src/memcheck.c:112-125 | zeroes table and statistics unless already initialised |
| `MemcheckObjects.AllocationTracker.ResetStatistics` | src/memcheck.c:189-193 | empties the table and zeroes the statistics |
| `MemcheckObjects.AllocationTracker.TrackedMalloc` | src/memcheck.c:204-212 | a block is tracked when there is one and the tracker is on |
| `MemcheckObjects.AllocationTracker.TrackedCalloc` | src/memcheck.c:214-222 | with the size of all members |
| `MemcheckObjects.AllocationTracker.TrackedRealloc` | src/memcheck.c:224-238 | the old block is taken out first, whether or not the reallocation succeeds |
| `MemcheckObjects.AllocationTracker.TrackedFree` | src/memcheck.c:240-256 | the block is taken out when the tracker is on |

## Left out

What the models assume or do not capture:

- WsConnection.Connection.Process: what happens once the sum of header and payload length wraps (src/websocket.c:358) is not modelled; the call is required not to come to that. Section 5.2 of RFC 6455 does not allow such a length. `WsStream.RunsStayBounded` is about runs without one.
- WsConnection.Connection.TakeFrame: the same.
- The narrowing of the frame encoder's result to `int` above 2^31 - 1.
- Frames behind a CLOSE in the same buffer are still dispatched, as in the code; `WsStream.SegmentationIndependence` is about streams that end at the first CLOSE, and `WsStream.Segmentation` says what happens to the others.
- An empty CLOSE is answered with code 1005, as in the code; no conformance is claimed there. The reason passed to the callback is the rest of the payload.
- WebSocket callbacks do not call back into the connection, allocations of payloads and fragments succeed, and the result of send is ignored, as the code does.
- Bytes are the numbers 0 to 255; the bit tests of frame headers are written as arithmetic on them.
- A text does not reach the last sixteen bytes of the address space (`Chunked.IsPlaced`), so the tests of the HTTP parsers that look a few bytes ahead do not wrap. The test that adds a chunk size to an address is modelled as it is, wrapping.
- WsStream.FragmentReassembly: a continuation that leaves the fragment empty calls `realloc` with size 0 (src/websocket.c:414-417), which may free the fragment and return NULL; the model takes it to succeed, as it takes `malloc` of an empty first fragment.
- WsStream.WholeMessageIffBelowLimit: the same assumption for a fragment that a continuation leaves empty; so for everything built on the dispatch of frames.
- HttpBuffers.FormatRequest: requires the head to fit the 1024 bytes the formatter leaves for it; what the buffer holds once a write is cut short is not modelled.
- HttpBuffers.FormatResponse: the same.
- HttpBuffers.ParseRequest: what happens after a header line is stored behind the table is not modelled; the call is required not to come to that.
- HttpBuffers.ParseResponse: the same, also for a body that overruns when its codings are removed.
- Chunked.DecodeChunked: what happens after a wrapped size, or without room, is not modelled; the call is required not to come to that.
- Decompression is a foreign call: what it returns is an input (`HttpResponse.Setting`). A decompressed body that is longer than the one received counts as an overrun, since the parser is told of no memory behind the text.
- The texts passed to the code are C strings: they hold no NUL character.
- The results of system calls on the registries are inputs; event masks are records of the three events.
- The dispatch loops of select and WSAPoll, which are not stable under callbacks that delete entries, and the one of kqueue.
- AsyncServer.StepKeepsInv: TLS off, registry calls of the running server succeed, listen is called on a stopped server, accept returns descriptors not in use; whether a request is complete and asks for keep-alive, and what its handler sends (at most one response), are inputs of the step.
- ServerObjects.ServerObject.Listen: the socket calls before the registration (src/async/server.c:234-303) are not modelled.
- ServerObjects.ServerObject.Dispatch: the pointer in a registration is a number that a map leads to its connection; the loop that waits for ready descriptors is the sequence of events.
- The send buffer of a connection is the sequence of the bytes put into it; `recv_buf`, `requests_served` and `total_requests` are not modelled.
- PoolObjects.ConnectionPool.ReturnConnection: a connection that is already pooled is never returned; TLS sessions are not modelled.
- CookieJarObjects.Jar.GetCookies: what happens after the text is written behind the 4096 bytes is not modelled; the call is required not to come to that. Cookie allocation succeeds; Expires and Max-Age are ignored by the code too.
- Redirect.RequestSimple: the replies, and the absolute URL built from a relative Location (src/cwebhttp.c:2544-2564), are inputs; the path sent and the response headers are not modelled.
- Memcheck.StepKeepsInv: file, line and time stamp of an entry are not kept, counters are unbounded, and the product in calloc does not wrap. Whether a realloc to size zero frees the block is an input.

Parts of the repository that are not modelled:

- Sockets, DNS, timeouts, TLS and inflate: foreign calls.
- The WebSocket handshake: its SHA-1 is a placeholder (src/websocket.c:31-44) and its base64 pads after the index has moved on (src/websocket.c:62-63).
- src/async/iocp.c: the meaning of completion ports is the system's.
- src/async/client.c: its pool repeats the shape of the synchronous one.
- URL and Range parsing, routing, MIME and error tables, logging, static files, examples and benchmarks: table lookups or I/O.
