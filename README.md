# File transfer over UDP and TCP: a model of both protocol sides

This project models the per-session protocol logic of a small Kotlin file-transfer service. The service has two variants.

**UDP.** A provider (`ClientConversation`) and a requester (`UDP.Client.Client`) run the exchange below:

1. The provider advertises the catalog in a `READY` message (file names) and a `SIZES` message (file sizes).
2. The requester answers with `SEND <id>`.
3. The provider announces `NUM <count>` and the file's digest.
4. The provider streams the file in 548-byte datagrams, stop-and-wait: one reply is awaited after each datagram.
5. The provider waits for a verdict.

**TCP.** A provider thread (`TCP.Server.Server`) advertises `READY` with file names, takes `SEND <name>`, and writes the file in 10000-byte pieces. A requester (`TCP.Client.Client`) reads `READY`/`SIZES`, sends `SEND <id>`, and reads a digest line. It then decodes flag-byte frames, where byte 0 of a read equal to 1 marks the last read, and answers OK or ERROR. A separate sender thread (`TCP.Server`) repeats the provider's 10000-byte loop.

Each side is a function or method of the input it consumes:
- UDP: a finite sequence of incoming datagrams.
- TCP: a finite sequence of text lines plus the results of the raw reads.

Running out of input is `Blocked`, since the source blocks there. An exception the source would raise is `Thrown(fault)`. A side produces a trace of what it sent plus the input it left unread. A file is a `seq<byte>`. The digest (MD5 in hex in the source) is an uninterpreted function parameter.

The two sides of each variant do not fit together. They are specified separately, with no end-to-end claim. The model keeps the code's defects and proves them:
- The UDP provider advertises `NUM ceil(n/548)` but streams `floor(n/548) + 1` datagrams. When 548 divides n, the extra datagram is a trailing empty one.
- The UDP provider parses the requested id before it looks at the tag. A request without a second field, or with a second field that is not an Int, throws; it is not answered with `ERROR`.
- The UDP digest is sent without a `HASH` tag, and the requester reads field 0 of that message.
- The UDP requester's receive loop never advances `currPack`. With a non-negative count it never finishes; it ends only by running out of datagrams or by an exception.
- The UDP requester sends no per-datagram `OK` and no verdict. Its only output is its `SEND` requests.
- The TCP provider's selection loop guard is inverted. It re-advertises after an accepted request, stops at the first `ERROR`, and the name it ends with is `"ERROR"`.
- The TCP provider sends no `SIZES`, no digest line and no flag bytes, all of which the TCP requester expects.
- Every completed TCP request closes the socket. A retry in `clientProcess` therefore throws at once.

Modules:
- `Wire`: shared vocabulary (bytes, outcomes, Kotlin's `split`, the fold-and-drop join, `toInt`/`toLong`, number templates).
- `Chunking`: the two ways the senders cut a file.
- `UdpProvider`, `UdpRequester`, `TcpProvider`, `TcpRequester`, `TcpSender`: one per core source file.

## Model

| member | source | states |
|---|---|---|
| Wire.Fit | src/main/kotlin/UDP/Client/Client.kt:163-166 | a datagram received into a fresh buffer of `size` bytes: its first bytes, zero-filled after |
| Wire.LastPathSegment | src/main/kotlin/UDP/Server/ClientConversation.kt:200-203 | the extracted name contains no `/` |
| Wire.SplitLast | src/main/kotlin/UDP/Server/ClientConversation.kt:201-202 | the last field of a split is the end of the text: all of it when there is no separator, otherwise what follows the last separator |
| Wire.LastPathSegmentIsSuffix | src/main/kotlin/UDP/Server/ClientConversation.kt:200-203 | the extracted name is the end of the path: the whole path, or what follows its last `/` |
| Wire.JoinSplit | src/main/kotlin/UDP/Server/ClientConversation.kt:206 | splitting the fold-then-drop join of a non-empty list of `;`-free fields on `;` gives the list back |
| Wire.ParseInteger | src/main/kotlin/UDP/Server/ClientConversation.kt:134 | parsing yields a value only for an optional sign followed by at least one digit and nothing else, and only inside the given range; anything else is None (a NumberFormatException) |
| Wire.ToInt | src/main/kotlin/UDP/Server/ClientConversation.kt:134 | `toInt` yields a value only inside the 32-bit range |
| Wire.PaddedNumberDoesNotParse | src/main/kotlin/UDP/Client/Client.kt:91-97 | a number followed by a NUL, as a field read from a zero-padded buffer is, never parses |
| Wire.ToLong | src/main/kotlin/UDP/Client/Client.kt:97-98 | `toLong` yields a value only inside the 64-bit range |
| Wire.ParseDecimal | src/main/kotlin/UDP/Client/Client.kt:89 | an id printed into `SEND <id>` parses back to the same id whenever it is in range |
| Wire.ToInt32 | src/main/kotlin/UDP/Client/Client.kt:129 | `Long.toInt()` stays within the Int range and leaves in-range values unchanged |
| Wire.ToInt32Wraps | src/main/kotlin/UDP/Client/Client.kt:129 | the narrowed value differs from the Long by a multiple of 2^32 |
| Wire.CharsOfBytes | src/main/kotlin/UDP/Server/ClientConversation.kt:170-172 | an ASCII message encoded to bytes decodes back to itself |
| Chunking.ChunksFlatten | src/TCP/Server/Server.kt:112-124 | the 10000-byte pieces put back together are the file |
| Chunking.ChunksShape | src/TCP/Server/Server.kt:112-118 | no piece is empty or larger than the chunk size; all but the last are exactly the chunk size |
| Chunking.ChunksCount | src/TCP/Server/Server.kt:112-118 | there are ceil(n / size) pieces, none for an empty file |
| Chunking.PacketsShape | src/main/kotlin/UDP/Server/ClientConversation.kt:228-239 | a loop of `count` passes reads exactly `count` pieces, none larger than the packet size |
| Chunking.Percent | src/TCP/Server/Server.kt:123 | the printed progress `curr * 100 / n` is at most 100, and is 100 exactly when `curr == n` |
| Chunking.PercentMonotone | src/TCP/Server/Server.kt:123 | printed progress never decreases as `curr` grows |
| UdpProvider.ZeroFreePrefix | src/main/kotlin/UDP/Server/ClientConversation.kt:148-165 | the result is a prefix of the input, has no zero byte, and is followed by a zero byte unless it is the whole input |
| UdpProvider.ZeroFreePrefixUnique | src/main/kotlin/UDP/Server/ClientConversation.kt:148-165 | any prefix with those three properties is that one: the longest zero-free prefix |
| UdpProvider.CleanByteArray | src/main/kotlin/UDP/Server/ClientConversation.kt:148-165 | the scan-then-copy loops return a new array holding exactly the longest zero-free prefix of the buffer |
| UdpProvider.Unpackage | src/main/kotlin/UDP/Server/ClientConversation.kt:184-187 | a received message is the datagram stored in a 548-byte buffer, cut at the first zero byte |
| UdpProvider.ReceivedAsciiText | src/main/kotlin/UDP/Server/ClientConversation.kt:184-187 | an ASCII message without NUL that fits in 548 bytes is received as sent |
| UdpProvider.NamesAreBaseNames | src/main/kotlin/UDP/Server/ClientConversation.kt:199-205 | each advertised name holds no `/` and is the end of the file's name: all of it, or what follows its last `/` |
| UdpProvider.SizesParse | src/main/kotlin/UDP/Server/ClientConversation.kt:210-213 | each advertised size is ASCII with no `;`, space or NUL, and parses as a Long to the file's length whenever that fits |
| UdpProvider.CatalogRoundTrip | src/main/kotlin/UDP/Server/ClientConversation.kt:199-214 | splitting the READY and SIZES payloads on `;` recovers every name and every size, and each size parses as a Long to the file's length |
| UdpProvider.AdvertisedCount | src/main/kotlin/UDP/Server/ClientConversation.kt:93-97 | the NUM count is ceil(n / 548): (count - 1) * 548 < n <= count * 548, and it is 0 exactly for an empty file |
| UdpProvider.PrepareToSend | src/main/kotlin/UDP/Server/ClientConversation.kt:125-146 | READY then SIZES go out first; a completed request consumes one datagram; -1 is returned exactly when ERROR was sent; any other id lies in 1..files.size and nothing else was sent |
| UdpProvider.PrepareToSendDecides | src/main/kotlin/UDP/Server/ClientConversation.kt:125-146 | every request: no second field or a non-Int id throws after READY and SIZES only, whatever the tag; a parsed id under another tag or outside 1..files.size (0 and files.size + 1 included) is answered with ERROR and gives -1; a parsed id in range under SEND is given back unchanged; no request yet blocks |
| UdpProvider.UntaggedWordThrows | src/main/kotlin/UDP/Server/ClientConversation.kt:132-138 | the request HELLO throws on its missing id rather than being answered with ERROR |
| UdpProvider.PrepareToSendAccepts | src/main/kotlin/UDP/Server/ClientConversation.kt:132-145 | an accepted id is the one carried by a request tagged SEND |
| UdpProvider.SplitRequest | src/main/kotlin/UDP/Server/ClientConversation.kt:132 | `"SEND <digits>".split(" ")` is the tag and the digits |
| UdpProvider.SelectionAccepted | src/main/kotlin/UDP/Server/ClientConversation.kt:125-146 | a well-formed `SEND <id>` with id in 1..files.size is accepted with that id, after only READY and SIZES |
| UdpProvider.RequestFileId | src/main/kotlin/UDP/Server/ClientConversation.kt:115-119 | the id it returns always indexes the file list (`files[fileId - 1]` is in range), and at least one datagram was consumed |
| UdpProvider.RequestFileIdSends | src/main/kotlin/UDP/Server/ClientConversation.kt:115-146 | once an id is returned, at least one request was consumed; every consumed request but the last earned one advertisement plus ERROR, and the last earned one advertisement |
| UdpProvider.StopAndWaitSendsPrefix | src/main/kotlin/UDP/Server/ClientConversation.kt:228-249 | the datagrams sent are a prefix of the packets, in order, and the replies left unread are a suffix |
| UdpProvider.StopAndWaitOutcome | src/main/kotlin/UDP/Server/ClientConversation.kt:241-245 | the stream completes exactly when every reply reads "OK"; otherwise the first non-"OK" reply throws with that reply, right after the packet it answers, or the stream blocks one packet past the last reply |
| UdpProvider.PacketAt | src/main/kotlin/UDP/Server/ClientConversation.kt:230-239 | pass i reads bytes [548 i, 548 i + 548) of the file, clipped to its end |
| UdpProvider.Passes | src/main/kotlin/UDP/Server/ClientConversation.kt:228-239 | one piece per pass of the loop |
| UdpProvider.PassesArePackets | src/main/kotlin/UDP/Server/ClientConversation.kt:228-239 | the pieces read off by index are the pieces the loop reads one after another |
| UdpProvider.SendFile | src/main/kotlin/UDP/Server/ClientConversation.kt:219-255 | the loop sends pass after pass while `currPack <= numPacks` and waits for an "OK" after each: its run is stop-and-wait over `numPacks + 1` passes |
| UdpProvider.PacketsCover | src/main/kotlin/UDP/Server/ClientConversation.kt:228-236 | when the pass count is just enough, the pieces are the file, all but the last a full 548 bytes |
| UdpProvider.PassesVersusPieces | src/main/kotlin/UDP/Server/ClientConversation.kt:93-105 | the floor(n/548) + 1 datagrams are the file's 548-byte pieces, plus one empty datagram when 548 divides n |
| UdpProvider.DatagramCountVersusAdvertised | src/main/kotlin/UDP/Server/ClientConversation.kt:93-105 | datagrams sent = advertised NUM, plus one when 548 divides n (an empty file included) |
| UdpProvider.StreamShape | src/main/kotlin/UDP/Server/ClientConversation.kt:228-249 | no datagram carries more than 548 bytes, all but the last carry exactly 548, and together they are the file |
| UdpProvider.TwoThousandBytes | src/main/kotlin/UDP/Server/ClientConversation.kt:93-105 | a 2000-byte file is announced as NUM 4 and sent as 548, 548, 548 and 356 bytes |
| UdpProvider.ExecuteProtocol | src/main/kotlin/UDP/Server/ClientConversation.kt:86-109 | a round never reads more than its input, and consumes at least one datagram before it gives a verdict |
| UdpProvider.CommunicateWithClient | src/main/kotlin/UDP/Server/ClientConversation.kt:77-81 | only a verdict of exactly "ERROR" restarts; any other verdict is the session's result, so the session never ends with "ERROR" |
| UdpRequester.ControlText | src/main/kotlin/UDP/Client/Client.kt:163-166 | a control message is the datagram, up to 548 bytes, one char per byte |
| UdpRequester.Pass | src/main/kotlin/UDP/Client/Client.kt:126-131 | within the file, the buffer is min(548, fileSize - receivedBytes), the count grows by exactly that and never passes fileSize, and once it reaches fileSize every later buffer is 0 |
| UdpRequester.ReceiveLeavesSuffix | src/main/kotlin/UDP/Client/Client.kt:125-140 | the loop reads datagrams in order: what it leaves unread is a suffix |
| UdpRequester.ReceiveFile | src/main/kotlin/UDP/Client/Client.kt:120-144 | the loop, with `currPack` never advanced, writes each datagram stored in a buffer of the pass's size |
| UdpRequester.ReceiveNeverCompletes | src/main/kotlin/UDP/Client/Client.kt:121-140 | the loop completes exactly when numPacks is negative, and then it writes nothing |
| UdpRequester.ReceiveWritesUpToSize | src/main/kotlin/UDP/Client/Client.kt:125-137 | with k datagrams read, exactly min(receivedBytes + 548 k, fileSize) - receivedBytes bytes are written, and the loop is still waiting |
| UdpRequester.ReceiveStoresDatagrams | src/main/kotlin/UDP/Client/Client.kt:133-136 | each pass writes the datagram's first bytes, zero-filled to the buffer size |
| UdpRequester.RequestFile | src/main/kotlin/UDP/Client/Client.kt:73-118 | nothing is sent but `SEND <fileId>`, and it is sent exactly when READY and SIZES are tagged, both carry a field and the catalog has a size for every name; ERROR with nothing sent when READY or SIZES is untagged; a verdict is OK or ERROR; the transfer path is stated by `UdpRequester.RequestFileReceives` |
| UdpRequester.RequestFileReceives | src/main/kotlin/UDP/Client/Client.kt:96-107 | with the tags in order, NUM parsed as `numPacks` and the (fileId - 1)-th catalog size parsed as `fileSize`, a receive loop that has not finished decides the round: only `SEND <fileId>` was sent, the round ends as `Receive(numPacks, fileSize, 0, ..)` does and leaves what it left |
| UdpRequester.TransferNeverAnswers | src/main/kotlin/UDP/Client/Client.kt:96-107 | on that path, with a non-negative count and size, the round never answers: it has sent `SEND <fileId>` and waits, having read every datagram |
| UdpRequester.NumTagChecked | src/main/kotlin/UDP/Client/Client.kt:91-93 | a third message not tagged NUM gives ERROR after sending only the request |
| UdpRequester.VerdictComparesDigests | src/main/kotlin/UDP/Client/Client.kt:104-115 | when the loop finishes, OK exactly when field 0 of the digest message equals the digest of the written bytes |
| UdpRequester.RequestFileOk | src/main/kotlin/UDP/Client/Client.kt:97-115 | an OK round needs a negative NUM count and a digest field equal to the digest of no bytes |
| UdpRequester.CommunicateWithServer | src/main/kotlin/UDP/Client/Client.kt:63-67 | repeats while the answer is ERROR; a session that ends answers OK; everything it sends is a `SEND <id>` from the selector (no ack, no verdict) |
| TcpProvider.NamesAreBaseNames | src/TCP/Server/Server.kt:67-71 | each advertised name holds no `/` and is the end of the listed file's name: all of it, or what follows its last `/` |
| TcpProvider.PrepareToSend | src/TCP/Server/Server.kt:62-95 | READY with the joined names goes out first; an accepted request (tag SEND, listed name) returns the name and sends nothing else; a rejected one sends ERROR and returns "ERROR"; a missing name field or the end of the stream throws |
| TcpProvider.PrepareToSendContinues | src/TCP/Server/Server.kt:80-91 | the returned name differs from "ERROR" exactly for an accepted request naming a file other than "ERROR" |
| TcpProvider.SelectFile | src/TCP/Server/Server.kt:39-43 | the loop over `fileName` computes the selection: repeat `prepareToSend` while it returns a name other than "ERROR" |
| TcpProvider.SelectionEndsWithError | src/TCP/Server/Server.kt:39-46 | a selection that ends normally ends with "ERROR" (the name then opened); all consumed requests but the last made the loop go on, and the last did not |
| TcpProvider.RejectedFirstRequestStops | src/TCP/Server/Server.kt:39-43 | a rejected first request ends the loop at once after one READY and one ERROR |
| TcpProvider.AcceptedFirstRequestReadvertises | src/TCP/Server/Server.kt:39-43 | an accepted first request makes the provider advertise READY again |
| TcpProvider.Send | src/TCP/Server/Server.kt:101-131 | the writes are the file's 10000-byte pieces: never empty or larger than 10000 bytes, all but the last exactly 10000, ceil(n/10000) of them, together the file; progress is printed once per write, never decreases, and reaches 100 only at the last |
| TcpSender.Send | src/TCP/Server.kt:29-57 | the same contract as the provider's `send`, for the stand-alone sender |
| TcpRequester.PayloadsLength | src/TCP/Client/Client.kt:119-127 | the payloads together are one byte per read shorter than everything read: each read contributes `curr - 1` bytes |
| TcpRequester.FramesStopAtFlag | src/TCP/Client/Client.kt:122-127 | a completed decode consumes the reads up to and including the first one flagged last, and no further |
| TcpRequester.FramesWithoutFlag | src/TCP/Client/Client.kt:119-126 | a decode that does not complete saw no flagged read, consumed everything, and blocks or throws at the end of the stream |
| TcpRequester.FramesWritePayloads | src/TCP/Client/Client.kt:119-127 | the bytes written are the consumed reads' payloads in order: each read's length minus one |
| TcpRequester.ReadInto | src/TCP/Client/Client.kt:119 | a read puts its bytes at the front of the reused buffer and returns their count; the rest of the buffer keeps what an earlier read left there |
| TcpRequester.ReceiveFile | src/TCP/Client/Client.kt:117-132 | the reused-buffer loop over byte 0 decodes the frames: payloads of every read up to and including the first flagged one |
| TcpRequester.RequestFile | src/TCP/Client/Client.kt:55-115 | on a closed socket it throws at once; untagged READY/SIZES sends ERROR, closes and answers ERROR; `SEND <id>` is sent first exactly when the socket is open, READY and SIZES are tagged and carry a field, the catalog has a size for every name and the id is in 1..names; a completed request sends `SEND <id>` and then its verdict, which is OK or ERROR, and closes the socket |
| TcpRequester.VerdictComparesDigests | src/TCP/Client/Client.kt:85-113 | with the messages in order and the file decoded, the answer is OK exactly when the digest of the decoded bytes equals field 1 of the digest line, and it is sent after `SEND <id>` |
| TcpRequester.ClientProcess | src/TCP/Client/Client.kt:48-53 | the retry loop is the first request, except that a first ERROR is followed by a retry on the closed socket, which throws |

## Left out

- Sockets, streams and files are not modelled. They are replaced by finite input sequences, output traces and `seq<byte>` contents. File lookup by path, `listFiles` order and the opening of the destination file are not modelled.
- MD5 and its hex encoding are an uninterpreted function; only string equality of digests matters.
- The listener and executor files (`src/main/kotlin/UDP/Server/Server.kt`, `src/main/kotlin/Server/Server.kt`), the runners and the accept-loop `main`s are not part of this model. The TCP `main`s accept connections without protocol logic.
- Console output is not modelled: catalog listing, `selectFileFromConsole`/`stdinSelection`, timing with `System.currentTimeMillis`, and the UDP floating-point percentage prints. The selector is a function from the attempt number to the id typed. The TCP integer progress prints are modelled.
- JVM exceptions collapse into one `Fault` value per kind; their messages and stack traces are not modelled.
- Text is ASCII: one char per byte. `toString(UTF_8)` on non-ASCII bytes and non-ASCII digits in `toInt`/`toLong` are not modelled.
- UdpRequester.RequestFile: a round's result does not carry the bytes written to the destination file. The receive loop's result holds them (`Receive(..).written`), and `RequestFileReceives` ties the round to that loop.
- UdpRequester.ControlText: in the source, the requester's 548-byte buffers keep their trailing NUL bytes, and the model cuts each control message at the datagram's length. The last field of a short message therefore carries NUL padding in the source. The number in `NUM <count>` then never parses (`toLong` throws at `Client.kt:97`), nor does the size of the last catalog entry; `Wire.PaddedNumberDoesNotParse` states this for any number. Field 0 of the digest message is the hex digest followed by NULs, so it never equals the computed digest and the source never answers OK. `UdpRequester.RequestFile`, `UdpRequester.VerdictComparesDigests` and `UdpRequester.RequestFileOk` describe the unpadded messages, where these fields do parse and can match.
- TcpRequester.ReceiveFile: a read of the raw stream is one given segment of 1..10001 bytes. Short reads, reads split differently from the sender's writes, and bytes already taken by the `BufferedReader` are not modelled.
- TcpProvider.SelectFile: what `run` does after the loop is not modelled. That is opening the file named "ERROR", which normally fails, then sending and closing. The name the loop ends with is proved to be "ERROR".
- UdpProvider.ExecuteProtocol: its contract states only how much input a round consumes. The parts are stated by `RequestFileIdSends`, `AdvertisedCount`, `SendFile` and `StopAndWaitOutcome`. That the unread replies form a suffix is not stated for a whole round.
- UdpProvider.RequestFileId: its contract does not state that the unread input is a suffix, only that it is shorter.
- Chunking.Percent: `curr * 100` is computed on a Long in the source; overflow for files over about 92 PB is not modelled. File lengths are unbounded naturals elsewhere too.
- TcpRequester.ClientProcess: `main` calls `requestFile` once directly, not `clientProcess`. Only `clientProcess` is modelled.
