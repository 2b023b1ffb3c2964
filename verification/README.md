# A verified model of the SMB1 client stack

The project models the client library `libcifs` and the programs built on it, from the raw byte stream up to
directory listings and file copies, and proves what each layer promises to the next.

| module | models |
|---|---|
| `Bytes` | bytes, little-endian integers, C strings |
| `Buffer`, `PathText` | the buffer with four marks; writing converted strings and paths into it |
| `Sockets` | recv and send that move as much as they please, stall, or fail |
| `Framing` | frames (section 4.3.1 of RFC 1002), messages (section 2.2.3 of MS-CIFS), whole conversations |
| `Streams` | runs of the blocking and the polling receivers over one stream |
| `Transport` | the packet layer and the receivers themselves, in place |
| `NbtName` | NetBIOS first-level names (section 14.1 of RFC 1001) |
| `Runs` | sequences of calls: draining, receiving k packets, mixing the three receivers |
| `Exchange` | packets built and sent on one connection and received on another |
| `Transact`, `Reassembly` | reassembly of transactions in reused buffers; what it guarantees |
| `Responses` | what the bytes of a response decide: refusal, a response in one message |
| `ShortResponses` | when a response is read from what an earlier one left |
| `Find`, `Listing`, `Scandir` | the paged directory iterator; what a listing comes to; the growing array on top |
| `Enumeration`, `Directory` | the listing from the wire up: framing, reassembly and iterator together; the same on a connection |
| `Flow`, `RateBound` | the two-window rate limiter; how much it lets through over a run |
| `Codepage` | character conversion into a fixed and into a growing buffer |
| `Uri`, `UriParser` | what a URI or UNC name means; the in-place parser |
| `Copy` | resumable download and upload over clamped block transfers |
| `TreeDump`, `RemoteTree` | the preorder tree dump and directory sizes; both recursions over the paged iterator |

Code that changes state is a class or a method proved against a function of the old state; what the code is for is
then proved about those functions. The sockets, the server, the local files and the converter are adversaries: finite
scripts, or functions with a contract, that the theorems quantify over. A stream is called healthy when no call on it
fails before its bytes are used up.

What the proofs found out about the code:

- A transaction whose first fragment has setup words fails at the third fragment: the second stores none, which puts
  the end mark of the setup block below its cursor (libcifs/transact.c:84-89; `SetupFitsExactly`,
  `SetupWordBreaksThirdFragment`).
- The completeness test looks at cursors, not at bytes (libcifs/transact.c:110). Fragments that leave a gap deliver
  what the previous transaction left in the buffer; fragments in order cannot (`IndependentExactlyWhenCovered`,
  `GapShowsOldByte`).
- The word count of a response is not checked, so the fields of a short one are read from what an earlier message
  left in the receive buffer, and so are setup words behind the packet. An error response without words can pass for
  an empty transaction (`SelfContainedExactly`, `ErrorReplyReadsOldBuffer`).
- The setup count is read as 16 bits (libcifs/struct.h:128); MS-CIFS has a byte and a reserved byte there
  (`ReservedByteRefuses`, `ReservedByteDecides`).
- A later FINDNEXT page without entries ends the listing even if its end flag is not set (libcifs/find.c:159-162;
  `EnumerationIsPagingIndependent`).
- The rate limiter averages over a window whose beginning jumps forward, so a run can let through one and a half
  times the limit, and not more (flow.c:47-63). It keeps the limit as long as that beginning is the reset
  (`LimitIsKept`, `ThirdCallBreaksLimit`, `LetThroughIsBounded`, `LimitIsExceeded`).
- Every prefix of a scheme name, the empty one included, stands for that scheme (uri.c:53-57). Names are decoded
  before they are split, so percent-encoding protects no delimiter (uri.c:39-40; `SchemeNameByPrefix`,
  `EncodedAtSplitsPassword`).
- The comment at libcifs/codepage.c:39 says that bad bytes are written in hexadecimal; the code writes two letters
  from A to P (`EscapeNeverReadsBack`).
- A copy onto a file that is longer than the source, or that does not begin like it, is reported as a success
  (`Copy.Download`, `Copy.Upload`).

## Model

| member | source | states |
|---|---|---|
| Bytes.LowByteFirst | libcifs/struct.h:118-130 | Numbers on the wire have their low byte first. |
| Buffer.Buf.constructor | libcifs/buffer.c:3-14 | A new buffer spans its whole memory: cursor at the beginning, end mark at the capacity (all marks zero for size 0). |
| Buffer.Buf.Setup | libcifs/buffer.c:20-25 | Lays the four marks over a region of somebody else's memory. |
| Buffer.Buf.Resize | libcifs/buffer.c:27-35 | Moves only the end mark: to the capacity for a negative size, refused beyond it; `b <= e <= x` is kept in every case. |
| Buffer.Buf.Set | libcifs/buffer.h:47 | Puts the cursor at an offset; nothing else changes. |
| Buffer.Buf.Inc | libcifs/buffer.h:48 | Advances the cursor; nothing else changes. |
| Buffer.Buf.Write | libcifs/buffer.h:61 | Bytes copied to the cursor replace exactly that stretch of the memory, inside and outside the buffer's region, and the cursor stands behind them. |
| PathText.WriteOem | libcifs/buffer.c:37-46 | The converted string lands at the cursor, or nothing is counted if it does not fit; no byte before the cursor or behind the end mark changes. |
| PathText.AllTurned | libcifs/buffer.c:64-68 | No slash (0x2F) is left; each has become a backslash (0x5C), and no other byte has changed. |
| PathText.TurnSlashes | libcifs/buffer.c:64-68 | The loop turns every slash of the text and of the one unit behind it, and no other byte. |
| PathText.WritePathOem | libcifs/buffer.c:60-70 | A path that fits is written with its slashes turned; behind the end mark at most one byte changes, and that only if it is a slash and the cursor ends at the mark. |
| NbtName.NbtName | libcifs/transport.c:101-115 | The two loops fill the 34 bytes with the label of the upper-cased, 16-truncated, space-padded name and touch nothing behind them. |
| NbtName.LabelIsLabel | libcifs/transport.c:101-115 | Every label has length byte 0x20, letters A..P in positions 1..32 and a final 0 (section 14.1 of RFC 1001). |
| NbtName.Upper | libcifs/transport.c:105 | No small letter is left; each has become its capital, and no other byte has changed. |
| NbtName.FredByBytes | libcifs/transport.c:101-115 | The name of the example in section 14.1 of RFC 1001, in mixed case, gets the label printed there, byte by byte. |
| NbtName.DecodeLabel | libcifs/transport.c:101-115 | A decoder that knows only the label format recovers the sixteen characters from every label. |
| NbtName.LabelsEqualExactlyForSameName | libcifs/transport.c:101-115 | Two names get the same label if and only if they agree up to case, trailing spaces and what is cut off behind sixteen characters. |
| Framing.NextMessageIsFirst | libcifs/transport.c:269-292 | What a receiver looks for is the first message: it finds f with the rest behind it if and only if the stream is some frames of other types, then f, then the rest. |
| Framing.FrameByBytes | libcifs/transport.c:269-292 | A type, a flags byte, a 16-bit length, high byte first, and that many bytes make a frame, and a message if and only if the type is 0. |
| Framing.NonEmptyExactly | libcifs/transport.c:403-421 | Of the messages those longer than their four-byte header count as non-empty, each as often as it comes, and no others. |
| Framing.DecodesExactly | libcifs/transport.c:15-26 | A message parses to m if and only if m is valid and the message has its flags and, from the magic on, begins with its encoding: trailing bytes make no difference, and nothing else parses. |
| Framing.EncodeParts | libcifs/transport.c:28-36 | Where everything stands in an encoded message, byte by byte: type, flags, length, magic, command, word count, words, byte count, bytes. |
| Framing.DecodeEncode | libcifs/transport.c:15-36 | Parsing an assembled message gives back its NBT flags, header, parameter words and byte block. |
| Framing.EncodeDecode | libcifs/transport.c:15-26 | Whatever parses is, from the magic on, the encoding of what was parsed, followed at most by trailing bytes. |
| Framing.EncodeIsMessage | libcifs/transport.c:28-36 | An assembled message is one frame of type 0 whose 16-bit length is exact. |
| Framing.NextOnWire | libcifs/transport.c:327-367 | After any chatter (frames of another type) the receiver finds the sender's next packet and is left with the rest of the conversation. |
| Framing.KthReceiveIsKthPacket | libcifs/transport.c:327-367 | For every conversation of packets and chatter, the k-th receive parses to the k-th packet: same header, words and byte block. |
| Framing.NothingAfterLastPacket | libcifs/transport.c:335-354 | After as many receives as there are packets a further one finds nothing, whatever chatter the conversation ends with. |
| Framing.NextMessageOnBoundary | libcifs/transport.c:269-292 | Taking the next message leaves the stream on a frame boundary. |
| Sockets.Socket.Recv | libcifs/transport.c:336 | recv: an arbitrary piece of the front of the input moves to the given place, or the call fails and nothing moves. |
| Sockets.Socket.Send | libcifs/transport.c:241 | send: an arbitrary prefix of the data goes out, or the call fails and nothing does. |
| Streams.AsyncStepKeepsMessages | libcifs/transport.c:388-425 | One polling call leaves the undelivered stream on a frame boundary and takes from its non-empty messages exactly what it returns. |
| Streams.PollStepIsAsyncStep | libcifs/transport.c:388-425 | A polling call told byte by byte, which succeeds exactly when the bytes read complete a non-empty message, is one told by frames. |
| Streams.EventKeepsMessages | libcifs/transport.c:294-425 | The same for a call of any of the three receivers, a blocking one being made between frames. |
| Streams.RunKeepsMessages | libcifs/transport.c:269-425 | Over every run of blocking and polling calls the stream stays on a frame boundary, and no non-empty message is lost, repeated or reordered. |
| Streams.PollingRefinesFraming | libcifs/transport.c:388-425 | Under any short reads and failures the polling receiver delivers, in order, exactly the non-empty messages the blocking framing loop finds in the part of the stream it consumed; once the connection is drained these are all of them. |
| Streams.BlockingMidFrameLosesSync | libcifs/transport.c:327-333 | A blocking call made while a frame is half-read by the polling receiver loses the frame boundary: a concrete stream. |
| Transport.Packet.constructor | libcifs/transport.c:194-202 | The packet buffer holds 65535 + 4 bytes with its cursor at the beginning, and the byte block starts empty. |
| Transport.Packet.Setup | libcifs/transport.c:42-49 | Opens a message for the command: room for the parameter words as they stand in the buffer, an empty byte block behind them, the rest of the header kept. |
| Transport.Packet.PutWord | libcifs/proto.c:210-212 | A parameter word stored in place changes that word of the message and nothing else of it. |
| Transport.Packet.Append | libcifs/buffer.h:61 | Bytes written to the byte block are appended to it and change nothing else of the message. |
| Transport.Packet.Unparse | libcifs/transport.c:28-36 | Closing the message in place makes the buffer hold exactly its encoding, lengths included. |
| Transport.Packet.Parse | libcifs/transport.c:15-26 | Accepts exactly the frames that decode, and lays the byte block over the decoded one. |
| Transport.Conn.constructor | libcifs/transport.c:188-210 | A connection has two packets over separate memory. |
| Transport.Conn.Send | libcifs/transport.c:232-247 | However send cuts it up, success means the whole encoding went out once; without errors it always succeeds. |
| Transport.Conn.Skip | libcifs/transport.c:249-267 | Drops exactly the given number of bytes, or fails at the end of the input. |
| Transport.Conn.RecvSize | libcifs/transport.c:269-292 | Skips frames of other types and returns the size the next message's header announces; nothing is left of that header. |
| Transport.Conn.RecvRaw | libcifs/transport.c:294-325 | Delivers the next message's payload into the caller's buffer and leaves the rest of that buffer; a payload that is too big is dropped whole, so the stream is on a frame boundary either way. |
| Transport.Conn.HeaderDone | libcifs/transport.c:339-353 | A complete header opens its message or drops another type's payload; the branch for a buffer that is too small cannot be reached. |
| Transport.Conn.Pull | libcifs/transport.c:335-338 | One recv at the cursor: the part read and the part to come spell the same stream as before. |
| Transport.Conn.RecvFrame | libcifs/transport.c:332-354 | The loop ends with the next message at the front of the receive buffer, everything behind it as it was; it fails on an error-free stream only if there is none. |
| Transport.Conn.Recv | libcifs/transport.c:327-367 | The next message is consumed whether or not it parses; success means it parses, with the byte block laid over it and stale bytes behind it untouched. |
| Transport.Conn.RecvAsync | libcifs/transport.c:388-425 | Each call uses up input or a turn of the socket while there is any, keeps what it read, and returns 0 if and only if that read completed a frame of type 0 with a payload, which then stands in the buffer. |
| Transport.Conn.Poll | libcifs/transport.c:398-424 | The read at the cursor: progress, the part kept, and success exactly when a whole non-empty frame of type 0 stands in the buffer. |
| Transport.Conn.Look | libcifs/transport.c:403-424 | What the bytes read so far make: a frame in progress, a frame to drop, or a message. |
| Runs.Drain | libcifs/transport.c:388-425 | Polling for as long as the socket has anything delivers exactly the non-empty messages of the stream, in order, and leaves none. |
| Runs.ReceivePackets | libcifs/transport.c:327-367 | k calls of cifs_recv on a healthy connection all succeed, and the j-th brings the j-th packet of the conversation. |
| Runs.Mix | libcifs/transport.c:327-425 | Any sequence of calls of cifs_recv, cifs_recv_raw and cifs_recv_async made in place, a blocking one left out only where a frame is half-read: the log has one entry a call, in order, each made at the moment the one before it left, with the result returned, the message a blocking call consumed, and the step and progress of a polling one. It stops early only at a blocking call for which no message is left. |
| Runs.MadeHappens | libcifs/transport.c:269-425 | Whatever such a log records is a run that the theorem on runs speaks of. |
| Exchange.Build | libcifs/transport.c:42-49 | A message set up, filled word by word and given its byte block, in place, has the ordered command, words and data, and keeps the rest of the header. |
| Exchange.WordAt | libcifs/proto.c:210-212 | The k-th word stands at twice k, low byte first. |
| Exchange.SendOrders | libcifs/transport.c:232-247 | However send cuts it up, what goes out over any sequence of packets built and sent in one buffer is the wire form of exactly these packets, in order. |
| Exchange.Converse | libcifs/transport.c:232-367 | Sender and receiver together: of k packets built and sent on one connection, the j-th that cifs_recv brings on the other parses to the j-th that was ordered. |
| Transact.Trans.constructor | libcifs/transact.c:43-57 | Three blocks of 255, 1024 and 60 K bytes over separate memory. |
| Transact.Trans.Check | libcifs/transact.c:82-86 | The tests on command, error class, setup room and totals decide exactly as the specification does. |
| Transact.Trans.TakeHeader | libcifs/transact.c:88-91 | Stores the setup words and moves the two end marks, in place. |
| Transact.Trans.TakeBlocks | libcifs/transact.c:93-110 | Both block copies and the completeness test, in place, agree with the specification: error, one more fragment, or done. |
| Transact.Trans.Turn | libcifs/transact.c:79-112 | One turn of the loop, from the state before the receive to the verdict on the fragment. |
| Transact.Trans.Loop | libcifs/transact.c:79-113 | The loop ends, and its outcome is that of the specified run over the stream. |
| Transact.Trans.Rewind | libcifs/transact.c:114-116 | The three cursors go back to the beginning and nothing else changes. |
| Transact.Trans.Recv | libcifs/transact.c:67-122 | The whole call, from any contents of the reused buffers and any error-free stream: result, blocks, receive buffer and remaining stream are those of the specified reassembly. |
| Responses.RefusedRun | libcifs/transact.c:79-84 | At any point of a transaction, whatever the buffers hold, the call fails on a message whose command is neither 0x25 nor 0x32, on one with an error of class 1 or 2, on one that does not parse, and at the end of the stream. |
| Responses.RefusedCall | libcifs/transport.c:51-99 | An error response, short or not, makes the whole call fail. |
| Responses.OneResponse | libcifs/struct.h:118-130 | A response in one message, with every field given by its byte position: it is delivered, all three blocks and the stream behind it, if and only if it fits 255, 1024 and 61440 bytes and is not refused, over any buffers. |
| Reassembly.AcceptExactly | libcifs/transact.c:82-110 | One turn in terms of the response's words: exactly when a fragment is refused, where it leaves the six marks, and that it is the last exactly when both cursors stand on their end marks. |
| Reassembly.PieceAccepted | libcifs/transact.c:81-110 | A fragment that continues the blocks in order is accepted exactly when its setup words have room, extends both blocks by its parts, and ends the loop exactly when both are complete. |
| Reassembly.RunPieces | libcifs/transact.c:79-113 | From any state of the loop, in-order non-empty fragments end it at the fragment that completes both blocks and at no other. |
| Reassembly.SetupFitsExactly | libcifs/transact.c:84-89 | Setup words are accepted if and only if there are none, or they come in the first of at most two fragments: a third fragment fails on the cursor left behind the end mark. |
| Reassembly.FragmentationIndependent | libcifs/transact.c:67-117 | For every way of cutting (param, data) into in-order fragments, with totals that may shrink and any layout, the call succeeds if and only if the setup words are accepted, and then delivers exactly the two blocks, whatever the buffers held before. |
| Reassembly.SentPieceCarries | libcifs/struct.h:118-130 | A fragment laid out as MS-CIFS section 2.2.4.46.2 says is one the client's view of a message recognises. |
| Reassembly.SentPiecesFeed | libcifs/transact.c:67-117 | A server that sends its fragments in order meets the hypothesis of the theorem above, and all its messages are consumed. |
| Reassembly.ConversationFeeds | libcifs/transact.c:67-122 | The same for a conversation with chatter between the fragments and anything behind them; the client is left with the rest of the conversation. |
| Reassembly.SetupWordBreaksThirdFragment | libcifs/transact.c:84-89 | Three sent fragments with a setup word in the first are a proper transaction that the client fails to read, whatever its buffers hold. |
| Reassembly.FragmentStaysInside | libcifs/transact.c:82-109 | Whatever a fragment says, the accepted param and data copies read inside the received packet and write inside their blocks, totals never grow, the setup words fit the setup block (they are read without a look at the packet's end), and no other byte of the three blocks changes. |
| Reassembly.CursorInsideExactly | libcifs/transact.c:84-109 | A resize may leave a cursor behind its end mark; after the turn it is inside again for param and data exactly if the fragment brought bytes for the block or the new total is not below the cursor, and for setup exactly if no earlier fragment brought setup words. |
| Reassembly.RunInLockstep | libcifs/transact.c:67-122 | Two calls on the same stream from different old blocks, and from different receive buffers if no message is short, take the same course and differ at most in bytes no fragment wrote, which are still the old ones. |
| Reassembly.IndependentExactlyWhenCovered | libcifs/transact.c:110 | A completed block is free of old bytes, for all old contents, if and only if the fragments cover it: the completeness test alone does not say so. |
| Reassembly.GapShowsOldByte | libcifs/transact.c:110 | A concrete message that is taken for a complete transaction and delivers a byte of the previous one. |
| ShortResponses.SelfContainedExactly | libcifs/transact.c:81-110 | A message accepted over one receive buffer is accepted over every one, with the same param and data blocks, if and only if it has its 57 bytes of words; with the same setup block if and only if it holds its setup words too. |
| ShortResponses.FetchOverAnyBuffer | libcifs/transact.c:67-122 | If no message of the stream is short, a whole call does not depend on what the receive buffer held. |
| ShortResponses.ErrorReplyReadsOldBuffer | libcifs/transact.c:81-86 | A concrete 39-byte error response without words (class 3) is taken for a complete, empty transaction over one buffer and refused over another. |
| ShortResponses.ReservedByteRefuses | libcifs/struct.h:128 | The setup count is read as 16 bits, so a response with a reserved byte that is not zero is refused. |
| ShortResponses.CountIsOneByte | libcifs/struct.h:128 | The count read is the one-byte count of MS-CIFS exactly when the reserved byte is zero, and every accepted message has it zero. |
| ShortResponses.ReservedByteDecides | libcifs/transact.c:81-110 | A concrete message of 59 bytes, over every buffer: with the reserved byte zero a complete, empty transaction, with any other value there an error. |
| Enumeration.SheetArrives | libcifs/find.c:139-156 | A page sent in any fragments reaches the iterator as a reply with its count, its end flag and its records at the front of the data block. |
| Enumeration.AnnouncedByBytes | libcifs/struct.h:241-264 | Where a FINDFIRST and a FINDNEXT parameter block have the record count and the end flag, byte by byte. |
| Enumeration.ListingFromTheWire | libcifs/find.c:92-172 | Across transport, reassembly and iterator: however a listing is cut into pages and these into fragments, whatever stands between them on the stream and whatever the buffers held, readdir returns every entry but `.` and `..`, once and in order, if and only if nothing but those two stands behind an empty page. |
| Directory.FetchReply | libcifs/find.c:149-157 | One page received in place through cifs_trans_recv: the reply is the one the specified reassembly gives, and the client goes on from the buffers and the stream that it leaves. |
| Directory.FetchPages | libcifs/find.c:141-163 | The pages asked for are those of the enumeration up to the end flag or the first empty page behind the first, and what was not asked for is still on the stream. |
| Directory.ListingCut | libcifs/find.c:159-162 | The pages behind that point would not have changed the listing. |
| Directory.LaterCut | libcifs/find.c:141-162 | Replies behind an end flag, behind an empty page and behind a failure make no difference. |
| Directory.ScanFromTheWire | libcifs/find.c:213-237 | cifs_scandir on the pages asked for: the array is exactly the server's listing without `.` and `..` if and only if the same holds. |
| Directory.ListDirectory | libcifs/find.c:92-237 | Receiving and collecting on a connection: whatever is left in the buffers, however the socket cuts the stream up, the server its listing and its pages, the array is exactly the server's listing without `.` and `..` if and only if nothing but those two stands behind an empty page. |
| Enumeration.SendingServerServes | libcifs/find.c:139-156 | A server that sends the fragments of its pages, with any chatter between them, meets the hypothesis of the two results above. |
| Find.Dir.constructor | libcifs/find.c:118-132 | An opened directory has the first page and a path buffer with the directory and a slash; what remains is that page and the replies to come. |
| Find.Dir.ReadName | libcifs/find.c:29-36 | The converted name stands behind the slash, so the path buffer reads as directory, slash, name. |
| Find.Dir.BuildDirent | libcifs/find.c:18-36 | The shared entry holds the record under the cursor: all stat fields and the converted name. |
| Find.Dir.NextPage | libcifs/find.c:141-163 | At the end of a page the next one is asked for; there is none to come exactly when nothing remains. |
| Find.Dir.TakeEntry | libcifs/find.c:164-167 | Takes exactly the first of the remaining entries. |
| Find.Dir.Readdir | libcifs/find.c:139-172 | Returns the first remaining entry that is not `.` or `..` and leaves the rest, or ends when there is none; it terminates on pages left and entries left. |
| Listing.HeadReads | libcifs/struct.h:266-278 | A record packed field by field in the layout of MS-CIFS section 2.2.8.1.4 is read back field by field. |
| Listing.HeadSlices | libcifs/struct.h:266-278 | The position of every field of a record. |
| Listing.PageReads | libcifs/find.c:164-167 | Following the next_entry_offset chain of a packed page gives its records, converted, in order, whatever lies behind them in the block. |
| Listing.LaterPages | libcifs/find.c:141-163 | Of the pages behind the first the client sees those up to the first empty one. |
| Listing.ShownExactly | libcifs/find.c:168 | An entry is returned as often as it is listed, unless it has attribute 0x10 and the name `.` or `..`; then it never is. |
| Listing.ShownInPlace | libcifs/find.c:168-171 | The entries returned stay in order. |
| Listing.UntilEmptyIsAll | libcifs/find.c:159-162 | Those are all pages if and only if no empty page stands before one with entries. |
| Listing.EnumerationIsPagingIndependent | libcifs/find.c:139-172 | For any listing cut into pages, the enumeration before the dot filter is every entry, once and in order, if and only if no page behind the first is empty with entries still to come; after the filter, if and only if nothing but `.` and `..` stands behind an empty page. |
| Scandir.Append | libcifs/find.c:222-231 | One more copied entry, in twice the room when the array is full; the entries before it stay. |
| Scandir.Scandir | libcifs/find.c:213-237 | The array holds exactly what readdir would return, in order, and a NULL behind it, across every doubling; each copy's path is directory, slash, name, and its name pointer is rebased into that copy. |
| Flow.FlowControl.Reset | flow.c:18-23 | All counters and the limit are zero and the three marks stand at the current time. |
| Flow.FlowControl.Account | flow.c:35-52 | Counting a call keeps the windows true to the log of all calls, across every flip. |
| Flow.FlowControl.Flow | flow.c:32-68 | The new state, the sleep asked for, the speed, the elapsed seconds and the result, from the old windows. |
| Flow.CountKeepsWindows | flow.c:35-52 | In every reachable state start <= a <= b <= c, d is the bytes logged after a, e those after b, and total all of them. |
| RateBound.PauseSuffices | flow.c:60-63 | After the sleep, d * 10^6 < limit * (now - a + 1) for the bytes d counted since the window began. |
| RateBound.PauseIsLeast | flow.c:60-63 | The sleep asked for is the least that suffices: after any shorter one the bytes would exceed the limit, and without a limit there is none. |
| RateBound.WindowIsShort | flow.c:47-52 | The newer window is never older than half a second: exactly then it becomes the older one, with its bytes, and an empty one begins. |
| RateBound.LimitIsKept | flow.c:45-63 | Over every run whose last call still averaged from the reset on, total * 10^6 < limit * (now - start + 1). |
| RateBound.ThirdCallBreaksLimit | flow.c:47-63 | That condition cannot be dropped, whatever the limit and the start: a run of three calls, the third averaging from a later time, is over the limit. |
| RateBound.CallStaysPaid | flow.c:47-63 | What the run owes to earlier windows stays paid for across a call, whether or not it flips. |
| RateBound.LetThroughIsBounded | flow.c:32-68 | Over every run from a reset meter the total let through stays below 3/2 of the limit plus half of the last window and half a microsecond a flip, hence below twice the limit. |
| RateBound.LimitIsExceeded | flow.c:47-63 | No limit is kept by itself: for every positive limit, start and n there is a legal run of n calls that has let through exactly 3/2 of it. |
| Codepage.Iconv | libcifs/codepage.c:26 | The stop rules assumed of iconv: it converts as far as it can and says why it stopped. |
| Codepage.FullIsText | libcifs/codepage.c:26-56 | The conversion of a text is that of its stretches, one after the other: what the converter makes of each character, and a percent sign and two letters for each byte that does not convert. |
| Codepage.Stretches | libcifs/codepage.c:26-56 | Every input falls into such stretches. |
| Codepage.Escape | libcifs/codepage.c:44-46 | A percent sign and two letters from A to P that tell the byte, high half first. |
| Codepage.Convert | libcifs/codepage.c:26-56 | The loop ends with the whole conversion, bad bytes escaped, or fails because it does not fit; bytes outside the window never change. |
| Codepage.CpBuf | libcifs/codepage.c:16-61 | Returns -1 exactly when the conversion does not fit, else writes it and a NUL if there is room for one. |
| Codepage.Grow | libcifs/codepage.c:84-116 | The growing loop ends (input left, then room still lacking) with the same conversion. |
| Codepage.CpBufa | libcifs/codepage.c:63-126 | The growing converter returns the conversion and a NUL: what the fixed one writes into any buffer that is large enough. |
| Codepage.EscapeNeverReadsBack | libcifs/codepage.c:44-46 | The escape of a bad byte is not hexadecimal: decoded as a percent escape it never gives back the byte. |
| Uri.UnescapeEscape | uri.c:9-31 | Unescaping gives back every string, whichever of its bytes were escaped and whether with capital or small letters. |
| Uri.UnescapeHex | uri.c:14-18 | A percent sign and two characters, whatever they are, stand for one byte. |
| Uri.OtherDigitsAreZero | uri.c:7 | A character that is no hexadecimal digit counts as 0. |
| Uri.BrokenEscape | uri.c:14-19 | An escape that breaks off at the end of the text loses its percent sign and nothing else. |
| Uri.EncodedNulEnds | uri.c:39-41 | An encoded NUL ends the text. |
| Uri.EncodingIsTransparent | uri.c:39-40 | Parsing a text and parsing it percent-encoded are the same, for every choice of encoded bytes. |
| Uri.SpellingReads | uri.c:33-128 | Parts with a host and a tree are read back from `cifs://[user[:password]@]host[:[addr:]port]/tree/path`, encoded or not, if and only if no part holds a delimiter that ends it early and dir and file are those of the path. |
| Uri.SpellByBytes | uri.c:42-64 | Delimiters and scheme names as bytes; `smb://` means `cifs://`. |
| Uri.MissingPartsAreEmpty | uri.c:95-112 | A host with or without a slash behind it has no tree and no path, and a tree with or without one no path. |
| Uri.LocalPathReads | uri.c:61-63 | A text without `://` that does not start with two backslashes is a path and nothing else, and so is what follows `file://`. |
| Uri.EncodedAtSplitsPassword | uri.c:39-83 | An at sign in a password splits it even if escaped, because decoding comes before splitting. |
| Uri.UncIsCifs | uri.c:42-49 | A UNC spelling parses to the same parts as its `cifs://` spelling. |
| Uri.SchemeNameByPrefix | uri.c:51-64 | Every prefix of a scheme name, the empty one included, stands for that scheme, and every other name is refused. |
| Uri.PathRecomposes | uri.c:113-121 | Directory and file put together again are the path, and the file has no slash. |
| Uri.AtoiDecimal | uri.c:91 | A port written in decimal is read back. |
| Uri.AtoiReads | uri.c:91 | White space, a sign, leading zeros and anything behind the number do not keep it from being read. |
| Uri.AtoiNothing | uri.c:91 | A text without a number counts as 0. |
| UriParser.DecodeOne | uri.c:13-27 | One step of the two-pointer loop: the write position stays behind the read position and no unread byte is overwritten. |
| UriParser.UnescapeInPlace | uri.c:9-31 | The in-place loop leaves exactly the left-to-right decoding, NUL-terminated, and every byte behind the string. |
| UriParser.UriRecord.SetUser | uri.c:71-83 | User and password are taken out of the buffer, which is as before when the method is done. |
| UriParser.UriRecord.SetHost | uri.c:84-94 | Host, address and port are those of the specification. |
| UriParser.UriRecord.SetAuthority | uri.c:71-94 | With and without an at sign; temporary NULs are taken back. |
| UriParser.UriRecord.SetTreePath | uri.c:103-121 | Tree, path, directory and file are those of the specification. |
| UriParser.SlashAll | uri.c:45-48 | Every backslash of the text becomes a slash and nothing else changes. |
| UriParser.FindScheme | uri.c:42-64 | Scheme and start of the rest, or failure, exactly as specified, prefixes of scheme names included. |
| UriParser.Parse | uri.c:33-128 | The imperative parser returns a record with exactly the parts of the specification, or none exactly when that has none. |
| RemoteTree.Dumper.DumpDir | cifs_spider.c:10-27 | Through the paged iterator: appends exactly the rows of the depth-limited tree in preorder, and moves the shared counter on by their number. |
| RemoteTree.DumpShowsExactly | cifs_spider.c:10-27 | What the dump shows is exactly what can be reached in at most deep + 1 steps through directories that open, each entry in its place with its name, and its size unless it is a directory. |
| RemoteTree.EntryRow | cifs_spider.c:6-8 | The line an entry is printed as, attribute 0x10 deciding whether it is a directory. |
| RemoteTree.ListedFromPages | libcifs/find.c:139-172 | A directory cut into pages lists all its entries but `.` and `..` if and only if nothing but those stands behind an empty page. |
| RemoteTree.PagingShowsNowhere | cifs_spider.c:10-27 | Rows and size sum are the same however each directory of the tree is cut into pages. |
| TreeDump.RowsWellNumbered | cifs_spider.c:18-24 | Ids are consecutive in preorder, and each parent id is the one given or that of an earlier directory row. |
| TreeDump.RebuildRows | cifs_spider.c:10-27 | Rebuilding from the (id, pid) rows gives back the depth-limited tree. |
| TreeDump.RowsDetermineTree | cifs_spider.c:10-27 | Two dumps with the same rows show the same tree. |
| TreeDump.SeenExactly | cifs_spider.c:18-24 | The tree rebuilt from the rows is, path by path, the part of the listed tree within deep + 1 steps. |
| TreeDump.PrintedSizesAddUp | cifscp.c:60-85 | The sizes printed by a deep enough dump add up to the size of the directory. |
| RemoteTree.Counter.AddSizes | cifscp.c:60-85 | Through the paged iterator: adds to the accumulator exactly the sizes of all files of the subtree that can be opened, modulo 2^64. |
| Copy.RequestExact | libcifs/proto.c:218-241 | The 32/32 split loses nothing of a 64-bit offset, and the 16-bit count nothing of a clamped one. |
| Copy.CountSurvivesExactlyIfClamped | libcifs/proto.c:221-229 | The count survives if and only if what the clamp leaves fits 16 bits; a whole download block unclamped would ask for nothing. |
| Copy.Session.Read | libcifs/proto.c:292-301 | With raw mode the raw read decides, unless it brings nothing; then, and without raw mode, the plain one does. The buffer holds the file's bytes at the offset; zero bytes come only from a server that stalls, in raw mode twice, and an error only from one that breaks off or sends too much. |
| Copy.Session.Write | libcifs/proto.c:323-341 | The server's file grows by a prefix of the data, which is what is reported unless the connection breaks. |
| Copy.Download | cifscp.c:203-271 | Success or failure, the destination is what it was, followed by the source from there on. Under any short transfers and stalls without failures it succeeds, and after a success the destination is the source if and only if it began as a prefix of it. |
| Copy.Upload | cifscp.c:310-388 | The same in the other direction, for short reads of the local file too. |
| Copy.AttemptsAddUp | cifscp.c:203-388 | Any number of broken attempts one after the other does what one would have done. |
| Copy.ResumedCopyIsExact | cifscp.c:203-388 | A copy resumed any number of times that ends with a success has made the source if and only if the destination started as a prefix of it. |

## Left out

- Sockets, name resolution, connecting and the NBT session request: foreign calls; a connection starts from an open stream.
- End of stream: recv returning 0 for ever makes the loops spin. Here a socket fails once its bytes are used up, and stalls are finite.
- The 17th length bit and the NBT flags byte: the code ignores both, and so does the model.
- The first polling call on a buffer nobody has received into: such a buffer is neither done with a frame nor part-way through one, so `Transport.Conn.RecvAsync` requires that it is.
- Session negotiation, login, tree connection, flag-to-disposition mapping: each is settled by reading one branch. `Copy.Session` takes the negotiated sizes in their clamped range, the buffer size not zero.
- The request side of transactions (libcifs/transact.c:10-41) and of FINDFIRST and FINDNEXT: `Transport.Packet` covers how any request is built and sent.
- Find.Dir.Readdir: takes the outcome of each send and receive as one reply from a list; `Enumeration` says which replies a stream gives, and `Directory` receives them. Records are required to lie inside the block and names to be shorter than NAME_MAX, which the code does not check.
- Directory.ListDirectory: receives the pages readdir will ask for before the entries are read, where the code asks when it gets to the end of a page; nothing else uses the connection in between. The stream is healthy and brings the pages. Sending the requests is `Transport.Conn.Send`.
- The early close in cifs_closedir (libcifs/find.c:86-90, libcifs/find.c:174-183): enumerations here run to their end.
- The code page tables and stateful encodings: the converter is any function from the input to its next character.
- PathText.WritePathOem: the 16-bit form cifs_write_path_ucs runs the same loop over 16-bit units and is not modelled.
- Flow.FlowControl.Account: requires that the int counters d and e do not overflow, where the code's behaviour is undefined; byte counts are not negative, and those of `RateBound` have no bound.
- Uri.AtoiDecimal: atoi on numbers beyond an int, whose result is undefined, is modelled without a bound.
- NbtName.NbtName: upper-casing as in the C locale.
- RemoteTree.Dumper.DumpDir: what opening each directory brings is given as pages and replies, a finite tree of them; rows are collected instead of printed, and paths are required to fit the path buffer, which the code does not check.
- Copy.Download: file contents do not change under the copy, and sizes are below 2^63. Opening and closing files, directories, progress display and the rate limiter's part in the loop are left out; the same goes for Copy.Upload.
- malloc failure, NULL arguments, freeing, logging and printing, time conversion, command lines.
- libcifs/rap.c and libcifs/rpc.c: request builders over the transaction layer with fixed records. human.c, cookie.c and fusecifs.c: formatting and glue.
