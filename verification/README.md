# xchange: a verified model

xchange sends a message or a file from a client (`xcc`) to a server (`xcd`) over TCP, in numbered and checksummed
frames, acknowledged twice and optionally encrypted. This project models both ends in Dafny and proves what the
protocol is for: the server stores exactly the client's file or nothing, the client never believes otherwise, and,
unless something fails, a transfer comes to an end that its parameters determine.

`dafny verify dfyconfig.toml` checks everything.

## How the model is laid out

| file | what it models |
|---|---|
| `Arithmetic`, `Bytes` | remainders by a variable divisor; bytes, little-endian numbers, bit operations, C strings |
| `Fletcher` | the frame checksum and its deferred reductions |
| `Nonce` | the IV counter |
| `Frames` | header codec, sealed frames, the byte stream of a run of frames, and what a receiver accepts from a stream |
| `Reception` | a whole file or message as a function of the bytes that arrive |
| `Upload` | the frames of a file transfer, and a transfer without faults |
| `Reordering` | intact frames dropped, duplicated or reordered |
| `Sio` | blocking socket reads and writes with retries |
| `Ciphers`, `SocketIO` | the cipher objects, and sending and receiving frames over a socket |
| `Handshake` | the control frame and the session it opens |
| `Client`, `Throttle` | the client's state machine, `sendFile`, `sendMessage`, bandwidth control |
| `Bandwidth` | the bytes that a throttled transfer puts on the connection |
| `Server`, `Connection` | the server's two state machines for a connection |
| `EndToEnd` | what the outcomes of both ends say about each other |
| `Session` | client, network and server as one transition system with arbitrary interleaving, short reads and writes, failures and cuts |
| `Delivery` | runs of that system in which nothing fails |
| `ConnTable` | accept thread, cleaner thread and workers around the locked list of connections |

Code that changes state is modelled by classes and methods with the source's fields and loops; each is proved against
functions of the bytes involved, and the properties are proved about those functions. Plain and encrypted connections
share one type, `Link`, so that every result about frames holds for both.

The kernel is an immutable `Kernel`: how much each `recv` and `write` is ready to move or how it fails, call by call,
and the room in the send queue before each write, all of it arbitrary. End of stream is sticky, and a peek is short
only at end of stream. A socket's ghost fields `faulted` and `stuck` record whether a read failed other than by end of
stream, or a write was given up, so that contracts can say what happens when neither is the case; `Socket.Valid` ties
them to the kernel: reads fail exactly when the kernel says so, and writes are given up only with a kernel that makes
the retry loop give up some frame. The crypto library is a record of arbitrary functions: keystream, tag and key
derivation; results about both ends assume that they hold the same key file. Random bytes and clock readings are
arbitrary. The packed structures are little-endian.

Results that a reader can check against the source are stated with its numbers and byte by byte (`Frames.SealedPiece`,
`Frames.PlainPiece`, `Handshake.OpeningBytes`, `Handshake.OpensIff`, `Upload.TransferFrames`, `SocketIO.AckLayout`), so
that they do not depend on how the model names or composes its own functions.

## Where code and documentation differ

- The project's own README names a size limit of about 6 TB and no other condition on files. By the code a file of L bytes
  in blocks of B arrives if and only if `L mod B != 0` and `L / B <= 2^32 - 4` (and its name has 1 to 128 bytes):
  `sendFile` closes a file that fills its last block with an empty data frame, which the server takes for an error.
  `Upload.FaultFreeTransfer`, `EndToEnd.DeliveredIff` and `Delivery.FaultFreeRuns` prove the condition exact; an empty
  file is the shortest that does not arrive (`Upload.EmptySource`).
- It also says that there are no concurrent connections. The code serves up to ten; `ConnTable` follows the code.
- `--whitelist` is documented to limit connections to the named encryptions. The server compares the whitelist with the
  security version of a control frame and takes the cipher from its protocol version; a session runs under a whitelisted
  version if and only if the latter belongs to one (`Handshake.WhitelistedIff`). Clients of this repository always send
  the two in agreement, but nothing checks that (`Handshake.VersionsDisagree`).
- The bandwidth option is documented as a limit. Up to 5 * 2^31 bytes per second it is one, give or take one frame per
  bucket; above, conversions to 32-bit integers can turn it into an enormous one: 5 * (2^32 - 1460) bytes per second
  allow 1460 * 2^32 bytes per bucket (`Bandwidth.BandwidthNotHonoured`). `Bandwidth.BucketBytesIff` gives the exact
  condition.
- Checksums and frame numbers guard integrity and order up to exact limits: a change between 0x00 and 0xFF of one byte is
  not noticed (`Fletcher.SingleByteChange`), and numbers repeat after 2^32 frames. `Reordering.StrayableIff` gives the
  exact names and lengths for which reordered frames can make the server write something other than a beginning of the
  source, `Reordering.SpoilableIff` those for which it can store something else; with an acceptable name the latter
  begins at 2^32 - 1 blocks (`Reordering.ShortestSpoilable`).
- A control frame may announce encryption for protocol version 1, which has no cipher. The server checks versions and flags
  one by one, admits it, and then calls a method of a null pointer; `Connection.FatalOpening` is an instance, and
  `Connection.ConnectionManager.MainLoop` says exactly when it happens. No client of this repository sends such a frame
  (`EndToEnd.OpeningIsHarmless`).

## Model

| member | source | states |
|---|---|---|
| Fletcher.Fletcher16 | src/xchange.hpp:370-390 | the loop with 32-bit sums, reduced once per 5802 bytes, computes the two sums modulo 255 without overflow: the second in the high byte, the first in the low one |
| Fletcher.ChecksumBytes | src/xchange.hpp:370-390 | high and low byte of the checksum by the definition that reduces after every byte, and by the weighted sum |
| Fletcher.DeferredIsCongruent | src/xchange.hpp:376-388 | reducing only at block ends, for any block length, leaves the same residues as never reducing |
| Fletcher.PerByteIsReducedSums | src/xchange.hpp:370-390 | reducing after every byte, as Fletcher's checksum is defined, gives the residues of the plain sums |
| Fletcher.ClosedForm | src/xchange.hpp:370-390 | the checksum is the byte sum and the position-weighted sum, both modulo 255, for every length |
| Fletcher.DeferredBound | src/xchange.hpp:378-385 | how large both sums can be r bytes after a reduction |
| Fletcher.RunOfOnes | src/xchange.hpp:378-385 | a family of inputs for which that bound is attained |
| Fletcher.BlockLengthIsTight | src/xchange.hpp:378-380 | 32 bits suffice on every input if and only if a block has at most 5802 bytes |
| Fletcher.SingleByteChange | src/xchange.hpp:370-390 | changing one byte leaves the checksum alone if and only if it turns 0x00 into 0xFF or back |
| Fletcher.SwapOfTwoBytes | src/xchange.hpp:370-390 | swapping two bytes leaves the checksum alone if and only if 255 divides their difference times their distance |
| Nonce.IncrementIV | src/aes_gcm_handler.hpp:22-29 | the in-place carry loop, for an array of any size |
| Nonce.IncrementAddsOne | src/chacha20_handler.hpp:197-204 | one call adds 1 to the little-endian value modulo 256^size |
| Nonce.AdvanceAdds | src/xchacha20poly1305tls_handler.hpp:25-32 | n calls add n modulo 256^size |
| Nonce.NoncesRepeatOnlyAfterACycle | src/aes_gcm_handler.hpp:129-132 | two frames share a nonce if and only if 256^size divides the number of frames between them |
| Nonce.SessionNoncesDistinct | src/socketIO_handler.hpp:154-160 | as a session accepts fewer than 2^32 frames, no two of them share a nonce |
| Bytes.FromToLE | src/xchange.hpp:106-124 | reading back a little-endian number of sufficient width |
| Bytes.ToLEBytes | src/xchange.hpp:106-124 | least significant byte first, for two and four bytes |
| Bytes.ByteOpBits | src/xchange.hpp:41-48 | the truth tables of and, or, exclusive or, bit by bit |
| Bytes.CStringTerminated | src/xcd_protocol_handler.hpp:110-114 | a terminating zero cuts off whatever follows it, and changes nothing exactly in zero-free text |
| Frames.HeaderRoundTrip | src/xchange.hpp:117-124 | decoding an encoded 10-byte header gives the header |
| Frames.HeaderBytesRoundTrip | src/socketIO_handler.hpp:122-123 | encoding a decoded header gives the bytes |
| Frames.HeaderLayout | src/xchange.hpp:117-124 | the ten bytes of a header, one by one |
| Frames.Link.OpenIffSealed | src/aes_gcm_handler.hpp:203-220 | 1460 bytes pass authentication and decrypt to a plain frame if and only if they are that frame sealed |
| Frames.Link.OpenBytes | src/aes_gcm_handler.hpp:203-220 | they do so if and only if each of the first 1444 is a plain byte xor its keystream byte and the other 16 are the tag over these 1444; the plain bytes are what they open to |
| Frames.DeframeWire | src/socketIO_handler.hpp:106-144 | header, payload and padding of a frame on the wire are recovered exactly, whatever follows |
| Frames.ReadFrameIff | src/socketIO_handler.hpp:106-173 | a byte stream is read as frame f and a rest if and only if it is the encoding of an acceptable f, then the rest |
| Frames.StreamAppend | src/xcc_protocol_handler.hpp:248-264 | the bytes of consecutive frames split at any frame, with frame number and IV carried across |
| Frames.IvAfter | src/aes_gcm_handler.hpp:129-132 | n frames advance the IV n times and change nothing else about a connection |
| Frames.SealedLength | src/aes_gcm_handler.hpp:125-138 | n encrypted frames are exactly 1460 n bytes |
| Frames.InStep | src/socketIO_handler.hpp:109-123 | for any ciphers, padding and number of frames, sender and receiver have the same IV after k frames, and piece k of 1460 bytes gives back exactly frame k |
| Frames.PlainPiece | src/socketIO_handler.hpp:176-187 | on a plain connection frame k is its ten header bytes and its payload, between the frames before and after it |
| Frames.SealedPiece | src/aes_gcm_handler.hpp:120-139 | on an encrypted one, bytes 1460 k to 1460 (k + 1) are header, payload and padding under the keystream of session key and initial IV advanced k + 1 times, and the tag |
| Reception.BodyStep | src/xcd_protocol_handler.hpp:187-202 | what one frame changes for a receiver that has written part of a file |
| Reception.AcceptedFrames | src/socketIO_handler.hpp:148-160 | never more frames are accepted than the counter has left before it rolls over |
| Reception.WrittenIsAccepted | src/xcd_protocol_handler.hpp:187-202 | what is written is the payload of the accepted frames in order, on every stream |
| Reception.WholeBodyIsTranscript | src/xcd_protocol_handler.hpp:187-209 | a body received as whole was encoded by frames with payload and an empty last frame |
| Reception.TranscriptIsWholeBody | src/xcd_protocol_handler.hpp:187-209 | every such encoding is received as whole, with exactly its payload |
| Reception.StoredIff | src/xcd_protocol_handler.hpp:129-217 | on every stream: a file is stored if and only if the stream begins with a name frame 0 of 1 to 128 bytes, data frames with payload, and an empty end-of-transmission frame of number at most 2^32 - 2; content and remainder are determined |
| Reception.TranscriptUnique | src/xcd_protocol_handler.hpp:129-217 | a stream has at most one such decomposition |
| Reception.MessageDelivered | src/xcd_protocol_handler.hpp:99-118 | a message frame is shown up to its first zero byte, unchanged if and only if it has none |
| Reception.TextIff | src/xcd_protocol_handler.hpp:86-125 | on every stream: a text is shown if and only if the stream begins with a frame 1 with payload that has this text up to its first zero |
| Upload.BuiltStep | src/xcc_protocol_handler.hpp:233-299 | each frame `sendFile` produces keeps name, flags, sizes and source bytes accounted for |
| Upload.FrameCount | src/xcc_protocol_handler.hpp:248-299 | L bytes take L/B + 1 data frames, the last with L mod B bytes, a name frame and an end-of-transmission frame |
| Upload.RejectedAt | src/socketIO_handler.hpp:154-170 | the server writes exactly what comes before the first frame it rejects |
| Upload.FaultFreeTransfer | src/xcd_protocol_handler.hpp:160-217 | a complete transfer stores exactly the source if and only if the name has 1 to 128 bytes, L mod B is not 0 and L/B is at most 2^32 - 4; otherwise a beginning of the source at most is written and dropped |
| Upload.EmptySource | src/xcc_protocol_handler.hpp:248-299 | an empty source does not arrive whatever its (acceptable) name: its one data frame is empty, so that the server drops the file it has created |
| Upload.Completion | src/xcc_protocol_handler.hpp:248-299 | every transfer under way is the beginning of a complete one |
| Upload.DataFrameIs | src/xcc_protocol_handler.hpp:250-263 | data frame p of a complete transfer carries the source from byte (p - 1) * B on |
| Upload.TransferFrames | src/xcc_protocol_handler.hpp:233-299 | the frames of a complete transfer one by one, with name, flags, blocks of 1450 or 1434 bytes, and end |
| Reordering.AcceptsOnlyInOrder | src/socketIO_handler.hpp:53-57 | of intact frames in any order the server takes an initial run with consecutive numbers |
| Reordering.DrawnFramesAreHarmless | src/socketIO_handler.hpp:46-73 | below 2^32 frames: however frames are dropped, duplicated or reordered, what is written is a beginning of the source and what is stored is all of it |
| Reordering.SpoilableIff | src/socketIO_handler.hpp:154-160 | in general: something else can be stored if and only if the end-of-transmission frame rolls over to an acceptable data frame number and a frame can pass for the name |
| Reordering.ShortestSpoilable | src/socketIO_handler.hpp:154-160 | with an acceptable name that is the case for a source of (2^32 - 1) * 1450 bytes and for no shorter one |
| Reordering.WrittenStays | src/xcd_protocol_handler.hpp:187-202 | of any source of at most 2^32 * 1450 bytes, and any frames taken in order by number, what is written is a beginning |
| Reordering.StrayableIff | src/socketIO_handler.hpp:154-160 | some source of a given name and length and some drawing of its frames make the server write something that is not a beginning of the source if and only if the length exceeds 2^32 * 1450 bytes and the name frame, or the short last block under number 0, can pass for the name |
| Sio.Socket.ReadFromSocket | src/xchange.hpp:549-634 | 0 if and only if the stream is long enough and no read fails, with exactly the next n bytes read; on failure fewer than n are consumed; peeking consumes nothing; at end of stream it tries exactly 100 times |
| Sio.Socket.WriteFrom | src/xchange.hpp:494-538 | one call appends exactly the bytes it reports |
| Sio.Socket.WriteToSocket | src/xchange.hpp:425-545 | from the answers of the kernel to these calls: it ends with the first call after which everything is out, or one call has failed for good, or more than 3 for the time being, or 16 others were not enough; what is out is the prefix that the answers add up to; it fails if and only if one of the last three is the case |
| Sio.Kernel.EndsSoon | src/xchange.hpp:459-542 | that takes at most 19 calls, whatever the answers, and is determined by them; nothing is given up once all is out |
| Sio.Kernel.UnderwayStep | src/xchange.hpp:494-542 | what one more answer makes of a write under way |
| Sio.Kernel.FullWrites | src/xchange.hpp:494-542 | if every call takes all it is given, n bytes get out if and only if ceil(n / min(n, q)) is at most 16 |
| Sio.Kernel.LavishIsHelpful | src/xchange.hpp:449-454 | a kernel that takes each frame whole and always has room for 92 bytes makes no write of a frame be given up |
| Ciphers.Encryption.Encrypt | src/aes_gcm_handler.hpp:112-139 | pads in place, advances the IV once, and fills the output with each plain byte xor its keystream byte, and the tag; too long an input changes nothing |
| Ciphers.Decryption.Decrypt | src/xchacha20poly1305tls_handler.hpp:211-228 | advances the IV once; verifies exactly what is some plain text under the keystream with its tag, and gives that plain text |
| Ciphers.Encryption.ReadKey | src/chacha20_handler.hpp:138-147 | succeeds with 32 bytes or more; byte i of the session key is byte i that the derivation gives for the first 32 and the initial IV |
| Ciphers.Decryption.ReadKey | src/chacha20_handler.hpp:58-67 | the same on the receiving side, from the IV received |
| SocketIO.ReadAck | src/socketIO_handler.hpp:228-242 | 8 bytes count as an acknowledgement without error if and only if they are the ones the server sends |
| SocketIO.AckLayout | src/xchange.hpp:126-130 | the eight bytes of a good acknowledgement |
| SocketIO.DataFrame.Construct | src/xcc.hpp:67-82 | header with checksum, then payload, in the transmit buffer |
| SocketIO.SocketIO_Manager.SendDataFrame | src/socketIO_handler.hpp:176-187 | what reaches the socket is a prefix of the frame's bytes on the wire, all of them on success, and the connection moves on by one frame; a payload too long to be sealed sends nothing and changes nothing |
| SocketIO.SocketIO_Manager.VerifyDataFrame | src/socketIO_handler.hpp:46-73 | 0 if and only if id, number, size and checksum are right |
| SocketIO.SocketIO_Manager.ReadPlainFrame | src/socketIO_handler.hpp:124-144 | peeking at the header and reading the frame gives the next frame, and, without faults, fails only when there is none, even when the stream ends inside a header |
| SocketIO.SocketIO_Manager.ReadSealedFrame | src/socketIO_handler.hpp:109-123 | the same for a frame that has to be authenticated |
| SocketIO.SocketIO_Manager.ReadDataFrame | src/socketIO_handler.hpp:106-173 | a result other than -1 means that `ReadFrame` accepts, with its payload in the buffer, the rest in the socket, number and IV advanced; -1 without faults means that it rejects |
| SocketIO.SocketIO_Manager.SendAck | src/socketIO_handler.hpp:244-249 | a prefix of the 8 bytes is sent, all of them exactly on success |
| SocketIO.SocketIO_Manager.GetAckFromSocket | src/socketIO_handler.hpp:228-242 | no error if and only if (without faults) the stream begins with a good acknowledgement, which is consumed |
| SocketIO.SocketIO_Manager.SetIVFromSocket | src/socketIO_handler.hpp:253-263 | consumes exactly the IV and installs it |
| Handshake.VersionsInverse | src/xchange.hpp:97-101 | each of the two lookup tables undoes the other |
| Handshake.CtrlRoundTrip | src/xchange.hpp:109-115 | decoding an encoded control frame gives the control frame |
| Handshake.BuildCtrlFrame | src/socketIO_handler.hpp:190-226 | the frame built by setting flags one by one, encrypted or not |
| Handshake.ClientFlags | src/xcd_protocol_handler.hpp:62-84 | although the encrypted flag overlaps others, new, encrypted and binary are read from the client's flags as meant |
| Handshake.FlaggedIff | src/xchange.hpp:41-48 | a flag is recognised if and only if all its bits are set |
| Handshake.FlagBits | src/xcd.hpp:55-58 | the bits by which new, binary and encrypted are recognised |
| Handshake.PvIsValid | src/xcd.hpp:22-36 | the loop finds exactly the protocol versions strictly between the bounds |
| Handshake.SvIsValid | src/xcd.hpp:38-52 | the loop finds exactly the whitelisted security versions |
| Handshake.CtrlFrameValid | src/xcd.hpp:61-79 | accepted if and only if both versions are between 1 and 4, the security version whitelisted, the new or the binary bit set and the id positive |
| Handshake.HandshakeIff | src/xcd.hpp:118-122 | for every whitelist, mode, security version and IV: the server opens a session on what the client sends if and only if the version is whitelisted, the id positive and a key there; it then has the client's cipher, session key, IV, mode and id, and has consumed exactly the opening |
| Handshake.OpeningBytes | src/socketIO_handler.hpp:190-226 | the opening of every client byte by byte |
| Handshake.OpensIff | src/xcd.hpp:61-122 | on every byte stream, byte by byte: whether the server opens a session, with which cipher, IV, session key, mode and id, and what it leaves |
| Handshake.WhitelistedIff | src/xcd.hpp:61-79 | for every control frame: an open session runs under a whitelisted version if and only if its protocol version belongs to one |
| Handshake.VersionsDisagree | src/xcd.hpp:104-122 | a control frame that opens a plain session under a whitelist of AES alone |
| Client.FileIO.ReadBytes | src/xcc_protocol_handler.hpp:66-80 | at most one block of the source; a short read, and only that, ends the good state |
| Client.DefaultProtocolHandler.SendNext | src/socketIO_handler.hpp:176-187 | what has been sent stays the beginning, on success all, of the stream of the frames so far |
| Client.DefaultProtocolHandler.SendBlock | src/xcc_protocol_handler.hpp:250-263 | reading, numbering and sending one block keeps the transfer honest and the counter right |
| Client.DefaultProtocolHandler.SendFile | src/xcc_protocol_handler.hpp:194-308 | on success the frames sent are a complete honest transfer of the source, on failure a beginning of one; without write failures it fails only for an unreadable source or too small a bandwidth; in every run, successful or not, with a bandwidth set, each data frame is begun in its bucket or later, and by t microseconds at most (F + 1) * (t / 200000 + 1) of them are |
| Client.DefaultProtocolHandler.SendMessage | src/xcc_protocol_handler.hpp:135-191 | on success frame 1 with the given message as it is, or with one block of standard input up to its first zero, and the end-of-transmission frame; on failure a beginning of them; unless writing failed, it succeeds if and only if a given message fits into a block, and standard input does not begin with a zero or its end |
| Client.DefaultProtocolHandler.ReadMessage | src/xcc_protocol_handler.hpp:109-132 | the text of one read from standard input up to its first zero byte, terminated inside the buffer |
| Client.DefaultProtocolHandler.SendCtrlFrame | src/socketIO_handler.hpp:190-226 | sends control frame and IV, or a beginning of them |
| Client.DefaultProtocolHandler.CtrlLoop | src/xcc_protocol_handler.hpp:310-424 | the loop stops without entering an ignored state; data go out only after an acknowledgement; no error if and only if (reading and writing having worked, and the payload being sendable) two acknowledgements came, and then everything was sent; without failures the whole opening is sent, and after one acknowledgement everything else that can be |
| Throttle.Throttle.FrameSent | src/xcc_protocol_handler.hpp:273-284 | the budget admits F + 1 frames per bucket; when it is spent, and not before, it asks to sleep for exactly what is left of 200000 microseconds |
| Throttle.Throttle.BegunInTime | src/xcc_protocol_handler.hpp:248-257 | a data frame begun in the current bucket keeps the pace, whether or not it gets through |
| Throttle.RateBound | src/xcc_protocol_handler.hpp:248-285 | a run whose frames are begun in their buckets or later has, at all times t, begun at most (F + 1) * (t / 200000 + 1) of them |
| Throttle.HonouredIff | src/xcc_protocol_handler.hpp:200-206 | with the source's conversions between integer types, F + 1 full frames stay within the share and one frame if and only if the configured bandwidth meets a condition a caller can check |
| Throttle.AdmitsFramesIff | src/xcc_protocol_handler.hpp:200-212 | the exact bandwidths with which a transfer can begin at all |
| Bandwidth.LoadOfStream | src/xcc_protocol_handler.hpp:248-264 | the load of a run of frames is the number of its bytes on the connection |
| Bandwidth.BucketBytesIff | src/xcc_protocol_handler.hpp:200-206 | the data frames of each bucket of every transfer, however far it got, total at most bandwidth / 5 + 1460 bytes if and only if the bandwidth meets that condition |
| Bandwidth.BucketBytes | src/xcc_protocol_handler.hpp:200-206 | below 5 * 2^31 bytes per second they always do |
| Bandwidth.BandwidthNotHonoured | src/xcc_protocol_handler.hpp:200-206 | a bandwidth for which they do not |
| Bandwidth.ByteRate | src/xcc_protocol_handler.hpp:273-284 | the data frames a throttled run has begun by t microseconds are among its first, which together have at most (bandwidth / 5 + 1460) * (t / 200000 + 1) bytes |
| Bandwidth.BytesOfSeconds | src/xcc_protocol_handler.hpp:273-284 | in s seconds that is at most s times the bandwidth, a share, and 1460 bytes per bucket |
| Server.DefaultProtocolHandler.RecvMessage | src/xcd_protocol_handler.hpp:86-125 | prints the text of frame 1, or fails; without faults it fails only if there is no frame 1 |
| Server.DefaultProtocolHandler.TerminatedText | src/xcd_protocol_handler.hpp:110-114 | the terminating zero lies inside the buffer for every result of reading a frame |
| Server.DefaultProtocolHandler.RecvFilename | src/xcd_protocol_handler.hpp:129-157 | the name of frame 0, of 1 to 128 bytes, or -1 |
| Server.DefaultProtocolHandler.RecvBlocks | src/xcd_protocol_handler.hpp:185-202 | the loop ends on every stream, within the frame counter, having appended exactly the accepted payloads |
| Server.DefaultProtocolHandler.RecvFile | src/xcd_protocol_handler.hpp:160-217 | 0 means that exactly the transmitted content appeared under a free path, which is the output directory, one slash and the name up to its first zero; 1 that the files are as before; without faults 1 means that there was no complete file or the path was taken |
| Server.TargetPathIff | src/xcd_protocol_handler.hpp:170-173 | the path is characterised by its parts |
| Server.SamePathIff | src/xcd_protocol_handler.hpp:170-173 | two names lead to the same path if and only if they agree up to their first zeros |
| Server.DefaultProtocolHandler.CtrlLoop | src/xcd_protocol_handler.hpp:219-318 | the loop stops without entering an ignored state; any byte of a second acknowledgement means delivery; files change and messages are printed only by delivery; and unless reading or writing failed, every session opened is acknowledged, and whatever can be delivered is delivered and acknowledged twice |
| Connection.ConnectionManager.ReceiveCtrlFrame | src/xcd.hpp:97-117 | goes on exactly with an admitted control frame |
| Connection.ConnectionManager.MainLoop | src/xcd.hpp:81-143 | whatever the peer sends, the connection ends with `done` set, and files, messages and acknowledgements agree with the session opened and what it carries; except that, reading having worked, a null pointer is called if and only if an admitted control frame announces encryption for a version without a cipher |
| Connection.FatalOpening | src/xcd_protocol_handler.hpp:62-76 | a control frame with which that happens at every server that takes plain connections |
| Connection.FatalIff | src/xcd_protocol_handler.hpp:62-76 | byte by byte, all the openings with which it happens |
| EndToEnd.CutTransfer | src/xcd_protocol_handler.hpp:185-216 | cut an honest transfer anywhere: what the server has written is a beginning of the source, and what it stores is the whole source after the last byte of a transferable one |
| EndToEnd.SessionOfClient | src/xcd_protocol_handler.hpp:243-267 | a session opened on the beginning of a client's bytes is the client's, and its data begin where the client's do |
| EndToEnd.OpeningIsHarmless | src/socketIO_handler.hpp:190-226 | no beginning of the bytes a client sends makes the server call the null pointer |
| EndToEnd.ClientAndServer | src/xcc_protocol_handler.hpp:367-412 | whatever each end received of what the other sent, the server's files change only by the whole source, at the path made of output directory, slash and name, and have so changed if the client reports no error |
| EndToEnd.MessageClientAndServer | src/xcc_protocol_handler.hpp:135-191 | a client that reports no error for a message has had exactly the given message, or the first block of standard input, up to the first zero byte printed, and no file touched; and the message was neither empty nor too long |
| EndToEnd.CarriesIff | src/xcd_protocol_handler.hpp:86-217 | the complete bytes of a client's file or message can be delivered if and only if the transfer is transferable and its path free, or the text is not empty |
| EndToEnd.DeliveredIff | src/xcc_protocol_handler.hpp:310-424 | both control loops together, when nothing fails: the client reports no error if and only if keys, whitelist, id, bandwidth, name, lengths and path meet conditions spelled out in numbers; then, and only then, exactly the source is stored under that path, or the given message (of standard input, the first block) up to its first zero byte printed |
| EndToEnd.TwoFiles | src/xcd_protocol_handler.hpp:170-209 | two such files whose names differ before their first zeros are both stored |
| EndToEnd.MessageArrives | src/xcc_protocol_handler.hpp:135-191 | a message is shown up to its first zero byte, unchanged if and only if it has none; text from standard input never has one |
| Session.ComposeInv | src/xcc_protocol_handler.hpp:248-285 | composing a frame keeps the invariant of the whole system |
| Session.HonestFrame | src/socketIO_handler.hpp:106-173 | whatever part of the bytes has arrived, a frame the server accepts is the next one the client composed |
| Session.BlockInv | src/xcd_protocol_handler.hpp:187-209 | accepting, rejecting or ending keeps the invariant |
| Session.AdvanceInv | src/xcc_protocol_handler.hpp:367-412 | taking an acknowledgement keeps the invariant: the first is never taken for the second |
| Session.RunInv | src/xcd_protocol_handler.hpp:219-318 | the invariant holds after every run of client, network and server, with failures and cuts at any point |
| Session.Safety | src/xcd_protocol_handler.hpp:269-304 | in every reachable state: the bytes arrived, under way, lost and unwritten are, in order, what is left of the client's opening and frames; bytes written, payloads of those frames and bytes unread make up exactly the source; the second acknowledgement is begun only when the whole source is saved; a client stopped without error implies that it is |
| Delivery.OpeningDecided | src/xcd.hpp:97-122 | once the bytes the server waits for are there, it lets the client in if and only if the client is admissible, and nothing is left over |
| Delivery.FrameDecided | src/socketIO_handler.hpp:124-173 | once a frame is complete it is accepted if and only if it is acceptable |
| Delivery.RejectedMeans | src/socketIO_handler.hpp:154-170 | a data frame of an honest transfer is rejected only as number 2^32 - 1 or as the last one, number L/B + 1, left empty because B divides L; and then the transfer is not transferable |
| Delivery.Progresses | src/xcc_protocol_handler.hpp:310-424 | no deadlock: a run without faults that has not ended can go on |
| Delivery.RunWell | src/xcd_protocol_handler.hpp:219-318 | every step of such a run uses up some of a measure that the setup determines |
| Delivery.FaultFreeRuns | src/xcc_protocol_handler.hpp:310-424 | without faults and under every interleaving, runs are bounded, do not get stuck, and end with both ends stopped: with the whole source saved and no error at the client if and only if the client is admitted, the path free and the transfer transferable; otherwise with nothing saved and an error |
| ConnTable.ConnManagerList.Start | src/xcd.cpp:248-252 | a connection is added at the end of the list, or refused when there are ten; the list is again in the state that a run of the table leads to, which goes on with connecting, locking and adding |
| ConnTable.ConnManagerList.CleanUp | src/xcd.cpp:196-205 | one pass, during which any workers may finish, takes out and deletes exactly the managers it has seen done, in order: all that were done when it began, none that is not done when it ends; the run of the table goes on to the same list |
| ConnTable.KeptOrDeleted | src/xcd.cpp:196-205 | what is kept and what is deleted are together the whole list, for any division of its members |
| ConnTable.WithoutAppend | src/xcd.cpp:196-205 | removal goes member by member and keeps the order |
| ConnTable.SweptNext | src/xcd.cpp:196-205 | looking at one more manager, done or not, carries on what the pass has done to the list |
| ConnTable.MarkThenRemove | src/xcd.cpp:196-205 | setting slots to null and then removing null removes exactly the managers of those slots |
| ConnTable.RunInv | src/xcd.cpp:223-256 | the table invariant holds after every run of accept thread, cleaner and workers |
| ConnTable.CreatedIsAdmissions | src/xcd.cpp:248-252 | managers are numbered by the connections admitted so far |
| ConnTable.Admission | src/xcd.cpp:231-256 | in every reachable state with the mutex free, the next connection gets the next manager at the end of the list, or is refused when there are ten |
| ConnTable.CleaningPass | src/xcd.cpp:189-211 | from every such state, any workers can finish, and a pass then leaves exactly the managers not done, in order, and deletes the others once each, in order |
| ConnTable.TableSafety | src/xcd.cpp:189-211 | at most ten managers, none twice, no null while the mutex is free; each deleted at most once and only when done; each manager created is in the table or deleted, not both |
| ConnTable.PassResult | src/xcd.cpp:196-205 | a pass removes exactly the managers it has seen done, all of which it deleted, and keeps the others in order; it misses none that was done when it began |

## Left out

- The inside of the crypto library: AES, ChaCha20, Poly1305, HKDF and the random pool are arbitrary functions or arbitrary bytes, so nothing is said about secrecy or forgery.
- `Connection.ConnectionManager.MainLoop`: what happens to the rest of the server after the null pointer is called is not modelled.
- `SocketIO.SocketIO_Manager.SendDataFrame`: for ChaCha20, which does not check, payloads longer than a sealed block are excluded; the source then asks for a negative number of random bytes. The client sends none, unless a file name is that long.
- What a cipher object holds that has been given neither IV nor key is arbitrary; some of the handlers clear it.
- Plain connections carry cipher objects that they never use, where the source has null pointers.
- A key file of fewer than 32 bytes: two of the handlers derive a session key from it before they report the error; the model does not change the key.
- Read errors after end of stream: end of stream is sticky, because the source's retry counter goes on below zero otherwise.
- `Sio.Socket.ReadFromSocket` with peeking: when the stream ends inside the bytes asked for, nothing is said about the buffer.
- An empty output directory, file systems that fail, other users of the target path, and read errors of the source file. Opening and writing the target never fail.
- Names longer than a data block, which overrun the transmit buffer, and a name changed by the file system.
- `Reordering.DrawnFramesAreHarmless`: for plain connections only. Sealed frames moved to another place are opened with another IV, about which nothing is known.
- The text shown for an end-of-transmission frame in place of a message, which is what the buffer held before.
- Descriptors: who closes a socket, and when, is not modelled; the cleaner may close a number already in use again.
- Timeouts and pauses have no duration except in the bandwidth control; giving up is an arbitrary action in `Session`.
- `Session` follows file transfers, which is all that its setups allow. Messages are covered by `Server`, `Client` and `EndToEnd`, whose `DeliveredIff` holds for both.
- `setKey` of the cipher handlers, which the protocol does not use; parsing of options, addresses and whitelists; help texts, logging, progress output and time stamps; helpers for hexadecimal output and the unused checksum.
