# Verified models of eight pieces of webrtc/base

The files here model eight self-contained pieces of the library under `app/src/main/cpp/hwapm/webrtc/base/` and prove
what they are for. `dafny verify dfyconfig.toml` checks all of it (Dafny 4.11).

- **The recursive lock** (`CriticalSection.dfy`, `LockCalls.dfy`): the spin-and-semaphore branch of `criticalsection.cc`
  as a transition system with a program counter per thread, any number of threads and any interleaving of their atomic
  steps.
- **Packet framing over TCP** (`AsyncTcpSocket.dfy`): sender and receiver with their buffers, and a link between two of
  them over which the socket takes and gives as many bytes as it likes, or none.
- **Bit buffers** (`Words.dfy`, `BitStream.dfy`, `GolombTable.dfy`, `BitBuffer.dfy`): machine words are lists of bits,
  so shifts, masks and truncations are those of C; the Exponential-Golomb code of section 9.1 of ITU-T H.264. Reader and
  writer are one class.
- **Base64** (`Base64Codec.dfy`, `Base64Theorems.dfy`, `Base64Lines.dfy`, `Base64Exact.dfy`, `Base64Loose.dfy`,
  `Base64.dfy`): encoder and decoder under all flags (section 4 of RFC 4648).
- **Rotating log files** (`DecimalText.dfy`, `FileNames.dfy`, `RotatingLog.dfy`, `RotatingFaults.dfy`,
  `FileRotatingStream.dfy`, `FileRotatingReader.dfy`): both streams over a directory of files, what a failed write does
  to them, and the reader. As there are no subclasses in the model, `Kind` says which `OnRotation` a stream has.
- **HTTP**: the incremental parser (`HttpParser.dfy`), the language it accepts (`LineText.dfy`, `HeaderLines.dfy`,
  `HttpGrammar.dfy`), what headers mean (`HttpHeaders.dfy`), the receive loop (`ReceiveLoop.dfy`, `HttpReceiver.dfy`),
  the sender (`SenderState.dfy`, `FlushData.dfy`, `FlushTheorems.dfy`, `HttpSender.dfy`), chunked coding
  (`ChunkedCoding.dfy`), what one side makes of the other's bytes (`HttpRoundTrip.dfy`, `HttpLines.dfy`), and the two
  together (`HttpTransfer.dfy`, `HttpDelivery.dfy`). What network and documents answer are scripts, given as parameters:
  a statement about all scripts is one about all schedules. What `HttpData` makes of leader and headers is a parameter,
  too (`Client`).
- **CRC-32** (`CrcCode.dfy`, `CrcDivision.dfy`, `CrcCheckValue.dfy`, `Crc32.dfy`): the definition of section 8 of RFC
  1952, the division of polynomials behind it, and the table form.
- **The disk cache** (`CacheState.dfy`, `CacheRuns.dfy`, `CacheCalls.dfy`, `CacheStorage.dfy`, `CacheChoice.dfy`,
  `CacheLimit.dfy`, `CacheDisk.dfy`, `CacheFindings.dfy`, `DiskCache.dfy`): what can be read of what has been stored,
  lock states, open streams, accounts, the choice of what to evict and what comes of it, and the sizes against what is
  on disk, over every sequence of calls. Which files cannot be deleted is a parameter of every call that deletes.

`Seqs.dfy`, `Arithmetic.dfy`, `Memory.dfy` and `Wrappers.dfy` hold small lemmas, the two copying routines, an option
type and the answers of a stream.

Where the source is a class that changes its fields, so is the model: its methods are proved against functions of the
old state, and the theorems are about those functions and their runs. Sockets, files, documents and clients answer as
they like within their contracts: their answers are parameters, or a havoced choice.

Places where the code does not do what one would expect, each stated and proved:

- Without a document, `flush_data` loops without end while the network blocks, because nothing sets `send_required`,
  unless headers are left or the buffer was full at the start (`FlushTheorems.SpinsExactly`,
  `FlushTheorems.SmallMessageSpins`).
- A document read that succeeds with no bytes is sent as the terminating chunk: the document arrives whole, and the
  message ends where it should, exactly if there is no such read; where it is the last one only what follows is
  misread (`HttpRoundTrip.ChunkedRoundTrip`, `ChunkedCoding.BodyRoundTrip`).
- "Transfer-Encoding: Chunked" means chunks to a receiver, and none to a sender, which compares the value letter by
  letter (`HttpHeaders.AgreeExactly`, `HttpRoundTrip.SpelledOtherwise`).
- A header that does not fit the sender's empty buffer is dropped without a word; all others arrive
  (`HttpHeaders.ArrivingTexts`, `HttpRoundTrip.HeadOutcome`).
- A size line with anything behind its number, such as a chunk extension of section 3.6.1 of RFC 2616, is an error, and
  one with a sign or with 0x in front of it is none (`LineText.SizeLine`, `HttpGrammar.ChunkedExactly`).
- When the connection closes cleanly while the document is blocked, the bytes still buffered are dropped and a message
  of unknown length is reported as complete: exactly when a call finds bytes buffered and the close is the first thing
  that it reads (`ReceiveLoop.CloseLosesExactly`, `ReceiveLoop.CleanClose`, `ReceiveLoop.BufferedDataLost`). With a
  known length or chunks a close is never taken for the end (`HttpTransfer.Delivered`).
- With padding required, white space behind a last quantum that needs no padding makes Base64 decoding fail
  (`Base64Theorems.TolerantDecoding`, `Base64Theorems.WhiteBehindFails`).
- Unless padding is required, Base64 decoding accepts a single "A" behind the last quantum, which no encoder writes
  (`Base64Theorems.SuccessExactly`, `Base64Theorems.SingleADecodes`).
- `LockResource` can evict the entry that it is locking, and then writes into the erased entry: exactly when
  `CheckLimit` succeeds, the entry is unlocked and unopened, and evicting those older than it is not enough
  (`CacheLimit.LosesExactly`, `CacheLimit.LosesBounds`, `CacheFindings.LockCanLose`).
- `CheckLimit` may try an entry that is locked or open, and then gives up although others could go; and it looks behind
  the end of the map when the first unlocked, unopened entry is the last. `CacheLimit.InUseExactly`,
  `CacheLimit.LeavesExactly` and `CacheLimit.SucceedsExactly` tell from the state before the call when that happens and
  when it does not (`CacheFindings.LockCanLose`, `CacheFindings.LargeEntryLeavesTheMap`). Where an unlocked, unopened
  entry was modified in the same second as another one, the order of the scan decides, and these, like
  `CacheLimit.LosesExactly`, give a sufficient and a necessary condition instead of one that is both.
- Two writers on one stream make the cache miscount: it counts a file at each close, and at each opening takes off what
  another writer has written and nobody has counted. A file that could not be deleted with its entry makes it miscount
  when the entry is made again: it takes off what has not been counted, or skips the file. The sizes stay right exactly
  as long as no call does any of this (`CacheDisk.RunExactly`, where `CacheDisk.TakesUncounted`,
  `CacheDisk.SkipsLeftover` and `CacheDisk.CountsUnfinished` say what a call must not do;
  `CacheFindings.TwoWritersMiscount`, `CacheFindings.TwoWritersUndercount`, `CacheFindings.LeftoverMiscount`).
- When a log file takes nothing of a write, the count of written bytes that the caller passed, which the failed write
  has not set, is added to the size of the file, which may then be rotated out too early. What the files hold stays as
  promised if and only if that count was 0, or it is at least the size of a file and there is nothing to lose yet
  (`RotatingFaults.FailedWriteExactly`, `RotatingFaults.OneByteLost`).
- A packet of 65536 to 65538 bytes passes the size check of `Send`, and fails an assertion behind it
  (`AsyncTcpSocket.AsyncTcpSocket.Send`).
- The number of padding zeros in a log file's name comes from index / 10 + 1, which the source calls the number of
  digits; the names sort in index order all the same (`FileNames.NamesInOrder`).

## Model

| member | source | states |
|---|---|---|
| CriticalSection.MutualExclusion | app/src/main/cpp/hwapm/webrtc/base/criticalsection.cc:53-164 | in every reachable state of any number of threads at most one has acquisitions; between calls `owning_thread_` names it and `recursion_` is their number |
| CriticalSection.QueueAccounting | app/src/main/cpp/hwapm/webrtc/base/criticalsection.cc:62-92 | `lock_queue_` is the holder's acquisitions plus the threads registered as waiting; without a holder owner and recursion are 0 |
| CriticalSection.NewHolder | app/src/main/cpp/hwapm/webrtc/base/criticalsection.cc:86-92 | whoever gets the lock finds nobody holding it, `owning_thread_` 0 and `recursion_` 0, and then is the only holder, once |
| CriticalSection.ChecksHold | app/src/main/cpp/hwapm/webrtc/base/criticalsection.cc:81-119 | the run-time checks hold: a thread that queues or waits is not the owner; once it has waited it finds owner and recursion 0, and so does TryEnter; a leaving thread owns the lock and has something to leave, and its second test of `recursion_` sees its own state |
| CriticalSection.SingleToken | app/src/main/cpp/hwapm/webrtc/base/criticalsection.cc:140-164 | no lost or surplus wakeup: the semaphore is 0 or 1, and while the queue is positive exactly one of these exists: a holder, a leaver that owes a signal, the signal |
| CriticalSection.DepthIsOutstanding | app/src/main/cpp/hwapm/webrtc/base/criticalsection.cc:53-164 | over every run, a thread between calls holds the lock as often as it has entered (or tried with success) more than left; how each call ends is told by the rows of LockCalls |
| CriticalSection.WaiterCanEnter | app/src/main/cpp/hwapm/webrtc/base/criticalsection.cc:78-92 | from every reachable state a waiter can still get the lock, with no new Enter by anybody; the run is computed |
| CriticalSection.InvStep | app/src/main/cpp/hwapm/webrtc/base/criticalsection.cc:53-164 | the inductive invariant is kept by every atomic step of every thread |
| LockCalls.TryEnterExactly | app/src/main/cpp/hwapm/webrtc/base/criticalsection.cc:110-139 | TryEnter from any reachable state with nobody else moving: it returns, with one acquisition more if and only if the lock is free or the thread's own, and with nothing changed otherwise |
| LockCalls.EnterExactly | app/src/main/cpp/hwapm/webrtc/base/criticalsection.cc:53-108 | Enter with nobody else moving: it returns, with one acquisition more, if and only if the lock is free, the thread's own, or a signal is pending; on a free or own lock it never reaches the semaphore |
| LockCalls.LeaveExactly | app/src/main/cpp/hwapm/webrtc/base/criticalsection.cc:140-164 | Leave with nobody else moving: it returns with one acquisition less; the last one clears the owner, and signals exactly when somebody is registered |
| LockCalls.CallEnds | app/src/main/cpp/hwapm/webrtc/base/criticalsection.cc:53-164 | every call can be run alone to such an end, in a bounded number of steps; the run is computed |
| LockCalls.TryEnterAmong | app/src/main/cpp/hwapm/webrtc/base/criticalsection.cc:110-139 | TryEnter among any steps of any threads: the holder gets the lock once more; another thread gets it if and only if it was free at the instant at which the call looked |
| LockCalls.EnterAndLeaveAmong | app/src/main/cpp/hwapm/webrtc/base/criticalsection.cc:53-164 | among any steps of any threads: an Enter that returns has taken the lock once more, a Leave once less |
| Framing.ParseFrames | app/src/main/cpp/hwapm/webrtc/base/asynctcpsocket.cc:278-297 | a sequence of whole frames followed by less than a frame parses to exactly those packets and that rest |
| Framing.ParseConserves | app/src/main/cpp/hwapm/webrtc/base/asynctcpsocket.cc:278-297 | packets found and rest put together again are the input, and no whole frame is left |
| Framing.ParseAppend | app/src/main/cpp/hwapm/webrtc/base/asynctcpsocket.cc:278-297 | parsing may stop anywhere and go on with what was left |
| Framing.RestBound | app/src/main/cpp/hwapm/webrtc/base/asynctcpsocket.cc:25-30 | what is left is at most 65536 bytes, less than the buffer |
| Framing.FrameBytes | app/src/main/cpp/hwapm/webrtc/base/asynctcpsocket.cc:249-262 | a frame is the length in two bytes, the high one first, and the packet |
| AsyncTcpSocket.AsyncTcpSocket.AppendToOutBuffer | app/src/main/cpp/hwapm/webrtc/base/asynctcpsocket.cc:168-172 | the bytes are put behind those waiting |
| AsyncTcpSocket.AsyncTcpSocket.FlushOutBuffer | app/src/main/cpp/hwapm/webrtc/base/asynctcpsocket.cc:151-166 | what the network took leaves the front of the buffer, in place; a blocked or failed send changes nothing |
| AsyncTcpSocket.AsyncTcpSocket.Send | app/src/main/cpp/hwapm/webrtc/base/asynctcpsocket.cc:249-276 | for every packet: too big: refused; buffer not empty: silently dropped; 65536 to 65538 bytes: the assertion of AppendToOutBuffer fails; no progress: dropped; else accepted, even if taken only in part |
| AsyncTcpSocket.AsyncTcpSocket.OnWriteEvent | app/src/main/cpp/hwapm/webrtc/base/asynctcpsocket.cc:217-227 | flushes what is waiting; ready to send exactly when nothing is left |
| AsyncTcpSocket.AsyncTcpSocket.ProcessInput | app/src/main/cpp/hwapm/webrtc/base/asynctcpsocket.cc:278-297 | the in-place loop delivers what the parse of the buffer says and keeps its rest at the front |
| AsyncTcpSocket.AsyncTcpSocket.OnReadEvent | app/src/main/cpp/hwapm/webrtc/base/asynctcpsocket.cc:195-214 | after any Recv result the state is that of the byte stream received so far; the overflow branch is dead |
| AsyncTcpSocket.SentKeeps | app/src/main/cpp/hwapm/webrtc/base/asynctcpsocket.cc:249-276 | one send keeps: wire plus buffer is the frames of the accepted packets, at most one of them torn |
| AsyncTcpSocket.EndToEnd | app/src/main/cpp/hwapm/webrtc/base/asynctcpsocket.cc:249-297 | over every schedule of partial, blocked and failed sends and partial receives the receiver has a prefix of the accepted packets, all but perhaps the last once the wire has arrived, and all once the buffer is empty |
| AsyncTcpSocket.AlwaysRoom | app/src/main/cpp/hwapm/webrtc/base/asynctcpsocket.cc:196-213 | in every run Recv is given room for at least two bytes |
| AsyncTcpSocket.CutIndependence | app/src/main/cpp/hwapm/webrtc/base/asynctcpsocket.cc:178-215 | receivers given the same bytes, cut differently, have delivered and buffered the same |
| AsyncTcpSocket.RunExactly | app/src/main/cpp/hwapm/webrtc/base/asynctcpsocket.cc:178-297 | over every run, told from its events: accepted are the packets offered while nothing is buffered and taken in part at least; the wire has as many bytes as the socket has taken; received is what it has handed up |
| AsyncTcpSocket.AllArrive | app/src/main/cpp/hwapm/webrtc/base/asynctcpsocket.cc:178-297 | once the socket has taken as many bytes as the frames of the accepted packets have, and has handed up as many, exactly these packets have been delivered |
| BitBuffer.WritePartialByteExactly | app/src/main/cpp/hwapm/webrtc/base/bitbuffer.cc:43-60 | although its source is not masked, the byte is right if and only if no further source bit falls where the target has none |
| BitBuffer.CountBits | app/src/main/cpp/hwapm/webrtc/base/bitbuffer.cc:63-70 | the number of binary digits |
| BitBuffer.BitBuffer.PeekBits | app/src/main/cpp/hwapm/webrtc/base/bitbuffer.cc:110-138 | succeeds just when there are that many bits, up to 32, and gives the number they stand for |
| BitBuffer.BitBuffer.ReadBits | app/src/main/cpp/hwapm/webrtc/base/bitbuffer.cc:140-142 | the same, and moves on; a failure moves nothing |
| BitBuffer.BitBuffer.ConsumeBits | app/src/main/cpp/hwapm/webrtc/base/bitbuffer.cc:148-156 | moves on by that many bits, or fails and does not move |
| BitBuffer.BitBuffer.Seek | app/src/main/cpp/hwapm/webrtc/base/bitbuffer.cc:211-219 | moves to a position in the buffer or just behind it, and to no other |
| BitBuffer.BitBuffer.SkipZeros | app/src/main/cpp/hwapm/webrtc/base/bitbuffer.cc:167-173 | stops at the first one, or at the end |
| BitBuffer.BitBuffer.ReadExponentialGolomb | app/src/main/cpp/hwapm/webrtc/base/bitbuffer.cc:158-188 | gives the value whose code stands at the position and moves behind it; otherwise restores the position, and that Seek never fails |
| BitBuffer.BitBuffer.ReadSignedExponentialGolomb | app/src/main/cpp/hwapm/webrtc/base/bitbuffer.cc:190-201 | the same through the signed mapping, within 32 bits |
| BitBuffer.BitBuffer.WriteBits | app/src/main/cpp/hwapm/webrtc/base/bitbuffer.cc:237-280 | exactly the next bits take the low bits of the value, most significant first, all others stay; without room nothing changes |
| BitBuffer.BitBuffer.WriteExponentialGolomb | app/src/main/cpp/hwapm/webrtc/base/bitbuffer.cc:282-294 | writes the code of the value just when it is below UINT32_MAX and there is room |
| BitStream.BitsRoundTrip | app/src/main/cpp/hwapm/webrtc/base/bitbuffer.cc:237-280 | what is read back is the written value modulo two to the number of bits, and no other bit has changed |
| BitStream.GolombOfCode | app/src/main/cpp/hwapm/webrtc/base/bitbuffer.cc:158-188 | decoding finds a value if and only if its code stands there |
| BitStream.ReadIsCode | app/src/main/cpp/hwapm/webrtc/base/bitbuffer.cc:158-188 | whatever decodes is the code of the result, bit for bit |
| BitStream.GolombDoesNotWrap | app/src/main/cpp/hwapm/webrtc/base/bitbuffer.cc:181-186 | the digits read are at least 1, so the final minus 1 does not wrap, and UINT32_MAX is never the result |
| BitStream.SignedBijection | app/src/main/cpp/hwapm/webrtc/base/bitbuffer.cc:195-199 | the signed mapping takes 0 .. 2^32 - 2 one to one onto -(2^31 - 1) .. 2^31 - 1 |
| GolombTable.CodeIs | app/src/main/cpp/hwapm/webrtc/base/bitbuffer.cc:158-188 | Table 9-1 of H.264: k zeros, a one and k more bits are the code of v if and only if v is 2^k - 1 plus the number of these bits |
| GolombTable.SignedIs | app/src/main/cpp/hwapm/webrtc/base/bitbuffer.cc:195-199 | Table 9-3 of H.264: code number k stands for (-1)^(k+1) times k / 2 rounded up |
| BitStream.CanWriteAllExactly | app/src/main/cpp/hwapm/webrtc/base/bitbuffer.cc:282-294 | a list can be written just when all values are below UINT32_MAX and the codes fit |
| BitStream.WritesBetween | app/src/main/cpp/hwapm/webrtc/base/bitbuffer.cc:282-294 | writing a list changes only the bits between its start and its end |
| BitStream.GolombListRoundTrip | app/src/main/cpp/hwapm/webrtc/base/bitbuffer.cc:158-188 | from any bit offset, a list that was written reads back as the same list and ends at the same position |
| Base64Codec.TablesInverse | app/src/main/cpp/hwapm/webrtc/base/base64.cc:32-69 | the decode table inverts the encode table and knows no other character; which characters these are is told by TablesAre |
| Base64Lines.TablesAre | app/src/main/cpp/hwapm/webrtc/base/base64.cc:32-69 | the 64 characters in their order, given literally; the white space is tab, line feed, vertical tab, form feed, carriage return and space; '=' is the pad; everything else is illegal |
| Base64Lines.CodeIs | app/src/main/cpp/hwapm/webrtc/base/base64.cc:98-136 | group g of the encoding is the four 6-bit digits of the 24-bit number of bytes 3g to 3g + 2, with pads for missing bytes, and there is nothing else |
| Base64Lines.WhiteSpaceIsIgnored | app/src/main/cpp/hwapm/webrtc/base/base64.cc:138-258 | an encoding cut anywhere, with any of these characters between and behind the pieces, decodes to its bytes with success and is used up |
| Base64Lines.BrokenIntoLines | app/src/main/cpp/hwapm/webrtc/base/base64.cc:138-258 | so does an encoding broken into any lines with "\r\n" between them |
| Base64Codec.QuantumInBounds | app/src/main/cpp/hwapm/webrtc/base/base64.cc:138-190 | despite the rollback of pads, a quantum ends between its start and the end of the text |
| Base64.EncodeFromArray | app/src/main/cpp/hwapm/webrtc/base/base64.cc:98-136 | the loop fills the preallocated result with the code of the data |
| Base64.GetNextQuantum | app/src/main/cpp/hwapm/webrtc/base/base64.cc:138-190 | the loop with its breaks is the scan used in the theorems; the rest of `qbuf` is zero |
| Base64.DecodeFromArray | app/src/main/cpp/hwapm/webrtc/base/base64.cc:205-258 | bytes, success and `data_used` are those of the decoder function, under all flags |
| Base64Theorems.StrictIsInverse | app/src/main/cpp/hwapm/webrtc/base/base64.cc:205-258 | strict decoding gives x if and only if the text is the encoding of x, and then uses all of it |
| Base64Theorems.StrictIffEncoding | app/src/main/cpp/hwapm/webrtc/base/base64.cc:205-258 | strict decoding succeeds exactly on the encodings |
| Base64Theorems.StrictIsCanonical | app/src/main/cpp/hwapm/webrtc/base/base64.cc:205-258 | strict success means that re-encoding the result gives the text: zero unused bits, exact padding, everything used |
| Base64Theorems.TolerantDecoding | app/src/main/cpp/hwapm/webrtc/base/base64.cc:138-258 | under all flags, an encoding with ignorable characters mixed in decodes to its bytes and is used up, and says success if and only if required padding is there and nothing ignorable follows a last quantum that needs none |
| Base64Theorems.WhiteAndLax | app/src/main/cpp/hwapm/webrtc/base/base64.cc:138-258 | the two common cases: white space with optional padding, and DO_LAX with everything but '=' mixed in |
| Base64Theorems.SuccessExactly | app/src/main/cpp/hwapm/webrtc/base/base64.cc:138-258 | where at most white space is ignored and the whole text must be used, decoding succeeds if and only if the text without white space is an encoding, padded as the flags want it, or, unless padding is required, whole groups with a single "A" behind them |
| Base64Theorems.WhiteBehindFails | app/src/main/cpp/hwapm/webrtc/base/base64.cc:183-258 | with padding required, a space in front of any whole groups is ignored, and a space behind them makes decoding fail, although all bytes come back |
| Base64Theorems.SingleADecodes | app/src/main/cpp/hwapm/webrtc/base/base64.cc:205-258 | the text "A", which encodes nothing, decodes to no bytes with success |
| Base64Exact.ParseExactly | app/src/main/cpp/hwapm/webrtc/base/base64.cc:138-258 | every text under DO_PARSE_STRICT and DO_PARSE_WHITE, all pad and term flags: bytes, success and `data_used`, told from the characters of the code at its start and what follows them |
| Base64Exact.StandsForBytes | app/src/main/cpp/hwapm/webrtc/base/base64.cc:138-258 | any characters of the code, but for unused bits, are the unpadded encoding of some bytes, so that the row above covers every text |
| Base64Loose.AnyParse | app/src/main/cpp/hwapm/webrtc/base/base64.cc:138-258 | every text under DO_PARSE_ANY: all characters of the code count, wherever they are, and the pads behind the last one; bytes, success and `data_used` exactly |
| FileNames.GetFilePath | app/src/main/cpp/hwapm/webrtc/base/filerotatingstream.cc:326-345 | the padding loop builds the name |
| FileNames.NameIs | app/src/main/cpp/hwapm/webrtc/base/filerotatingstream.cc:326-345 | a string is the name of file i of n if and only if it is the prefix, an underscore, zeros as the formula wants them, and the decimal numeral of i |
| DecimalText.DecimalIs | app/src/main/cpp/hwapm/webrtc/base/filerotatingstream.cc:326-345 | the numeral of a number: digits that mean it, with no zero in front but for 0 itself, and there is only one |
| FileNames.NamesInOrder | app/src/main/cpp/hwapm/webrtc/base/filerotatingstream.cc:326-345 | names sort in index order although the padding formula is not a digit count |
| FileNames.SortedIsUnique | app/src/main/cpp/hwapm/webrtc/base/filerotatingstream.cc:69-70 | sorting a set of names has one outcome, so the reader has the writer's order |
| RotatingLog.SizesFit | app/src/main/cpp/hwapm/webrtc/base/filerotatingstream.cc:383-398 | first file and rotating files together stay within the total and leave less than one more file of it unused; files of 1048576 bytes if half of the total holds three, otherwise two of a quarter each |
| RotatingLog.PlainKeepsSuffix | app/src/main/cpp/hwapm/webrtc/base/filerotatingstream.cc:143-171 | n files of m bytes hold exactly the last (L mod m) + min(L div m, n - 1) * m bytes, with room in file 0 before every write |
| RotatingLog.KeepsBothEnds | app/src/main/cpp/hwapm/webrtc/base/filerotatingstream.cc:370-381 | the call-session files hold everything up to H bytes, then the first H bytes and of the others the last (M mod s) + min(M div s, R - 1) * s |
| RotatingLog.CallWithinTotal | app/src/main/cpp/hwapm/webrtc/base/filerotatingstream.cc:354-398 | the bytes on disk never exceed the total, not even between filling a file and rotating it |
| RotatingLog.WriteKeepsInv | app/src/main/cpp/hwapm/webrtc/base/filerotatingstream.cc:143-171 | every write of either stream keeps the invariant |
| RotatingLog.RunKeepsEnds | app/src/main/cpp/hwapm/webrtc/base/filerotatingstream.cc:143-171 | both statements after any sequence of writes of any sizes, from opening on |
| FileRotatingStream.FileRotatingStream.ForLog | app/src/main/cpp/hwapm/webrtc/base/filerotatingstream.cc:31-67 | a stream ready to be opened, with its names |
| FileRotatingStream.FileRotatingStream.ForCallSession | app/src/main/cpp/hwapm/webrtc/base/filerotatingstream.cc:354-364 | the same with the sizes of the call-session stream |
| FileRotatingStream.FileRotatingStream.Open | app/src/main/cpp/hwapm/webrtc/base/filerotatingstream.cc:210-219 | everything with the prefix is deleted, file 0 is started, other files stay |
| FileRotatingStream.FileRotatingStream.MoveFiles | app/src/main/cpp/hwapm/webrtc/base/filerotatingstream.cc:278-302 | the renaming loop: the file at the rotation index goes, the newer ones move up, a new one is started; other files stay |
| FileRotatingStream.FileRotatingStream.OnRotation | app/src/main/cpp/hwapm/webrtc/base/filerotatingstream.cc:370-381 | smaller files after the first rotation; from the one before it would go, the first file is spared |
| FileRotatingStream.FileRotatingStream.Write | app/src/main/cpp/hwapm/webrtc/base/filerotatingstream.cc:143-171 | takes the least of the data, the room left in the file and what the file takes, appends it, counts it, and rotates exactly when the count reaches the size of a file; a write of which the file takes nothing is an error, and counts what the caller passed; unopened: an error and no change |
| RotatingFaults.FailedWriteExactly | app/src/main/cpp/hwapm/webrtc/base/filerotatingstream.cc:143-171 | after a write of which the file takes nothing, and every later sequence of writes, the files hold what the stream promises if and only if the count that the caller passed was 0, or at least the size of a file while there is nothing yet in the files that take turns |
| RotatingFaults.OneByteLost | app/src/main/cpp/hwapm/webrtc/base/filerotatingstream.cc:143-171 | two files of two bytes: a first write fails with a count of 1, then one byte and two bytes are written: the files hold the last two where all three should be |
| FileRotatingReader.FindsFiles | app/src/main/cpp/hwapm/webrtc/base/filerotatingstream.cc:68-76 | the files found by prefix and sorted are the writer's, newest first, with their contents |
| FileRotatingReader.FileRotatingReader.Read | app/src/main/cpp/hwapm/webrtc/base/filerotatingstream.cc:93-141 | data and what remains make up what was to be read, oldest file first; the end is reported exactly at the end |
| FileRotatingReader.ReadBack | app/src/main/cpp/hwapm/webrtc/base/filerotatingstream.cc:93-141 | reading a written log to its end gives the suffix, or the two ends, that the stream promises |
| HttpParser.CutIndependence | app/src/main/cpp/hwapm/webrtc/base/httpbase.cc:59-122 | input presented in any pieces, each behind what was left, ends in the state, the reports, the rest and the result of one uninterrupted parse |
| HttpParser.RunAppend | app/src/main/cpp/hwapm/webrtc/base/httpbase.cc:59-122 | one more piece of input continues the parse of what was there before |
| HttpParser.RunTake | app/src/main/cpp/hwapm/webrtc/base/httpbase.cc:97-116 | document data may be consumed in any number of parts |
| HttpParser.HttpParser.ProcessLine | app/src/main/cpp/hwapm/webrtc/base/httpbase.cc:124-213 | the branching of the line parser, with its error of every state, is the reference; what it means is told by HeadOutcome, HeaderExactly and ChunkedExactly |
| HttpHeaders.WhiteIs | app/src/main/cpp/hwapm/webrtc/base/httpbase.cc:84-86 | white space is exactly these six characters |
| HttpHeaders.LowerIs | app/src/main/cpp/hwapm/webrtc/base/httpbase.cc:31-35 | capital letters are taken for small ones, and nothing else |
| HttpHeaders.LastValueIs | app/src/main/cpp/hwapm/webrtc/base/httpbase.cc:148-169 | the value that counts is that of the last header of the name, in any capitals; there is none just when no header has the name |
| HttpHeaders.HeadersMean | app/src/main/cpp/hwapm/webrtc/base/httpbase.cc:148-169 | any list of headers is accepted if and only if every Content-Length is a number and every Transfer-Encoding says chunked or identity; then size and chunking are those of the last ones |
| HttpHeaders.ArrivingTexts | app/src/main/cpp/hwapm/webrtc/base/httpbase.cc:708-730 | what the sender sends are the headers shorter than its buffer by more than three bytes, in their order |
| HttpHeaders.AgreeExactly | app/src/main/cpp/hwapm/webrtc/base/httpbase.cc:421-425 | sender and receiver agree on chunking unless "chunked" is spelled with capital letters |
| HeaderLines.HeaderExactly | app/src/main/cpp/hwapm/webrtc/base/httpbase.cc:136-169 | any line of the head that is not blank: it is a header if and only if a colon comes before any NUL, with the name in front of the first one and the value without the white space around it; otherwise an error |
| HeaderLines.HeadEnds | app/src/main/cpp/hwapm/webrtc/base/httpbase.cc:170-174 | at the blank line the answer of the client decides: an error ends the message, a change of the I/O model interrupts the call right there, and its size is the one to go on with |
| LineText.SizeLine | app/src/main/cpp/hwapm/webrtc/base/httpbase.cc:176-189 | what strtoul makes of a size line, and that it uses all of it, is exactly: white space, a sign, 0x, hexadecimal digits and white space, with its clipping and negation |
| LineText.HexIs | app/src/main/cpp/hwapm/webrtc/base/httpbase.cc:179-179 | the hexadecimal digits and their values, given literally |
| HttpGrammar.ChunkedExactly | app/src/main/cpp/hwapm/webrtc/base/httpbase.cc:176-206 | for every input: the parser completes a chunked body if and only if the input starts with a well-formed one (chunks, a size of 0, trailers, a blank line), and reports HE_PROTOCOL if and only if it starts with whole chunks and then a line that says no size, or with something where a chunk should end |
| HttpGrammar.CodedIsRead | app/src/main/cpp/hwapm/webrtc/base/httpbase.cc:176-206 | a well-formed chunked body gives the data of its chunks and leaves all that follows |
| HttpParser.ParseAgrees | app/src/main/cpp/hwapm/webrtc/base/httpbase.cc:59-122 | however the document takes, blocks or fails, one uninterrupted parse of the input is that of what is left; and without interruption it has been completed |
| HttpParser.ParseInterrupted | app/src/main/cpp/hwapm/webrtc/base/httpbase.cc:97-116 | a call is interrupted only by a document that blocks, or has no answer left, with data for it at hand, or by a client that asks for it; it fails with HE_STREAM only when the document has just failed |
| HttpParser.WillingParse | app/src/main/cpp/hwapm/webrtc/base/httpbase.cc:59-122 | a document that keeps taking, and a client that never asks to wait, let a call parse all that the input allows |
| HttpParser.HttpParser.Process | app/src/main/cpp/hwapm/webrtc/base/httpbase.cc:59-122 | state, rest, result and answers used are those of the parse with the answers of the document |
| ReceiveLoop.ReceiveExplained | app/src/main/cpp/hwapm/webrtc/base/httpbase.cc:498-578 | whatever network and document answer, the parser and the buffered bytes stand for everything received until the message is over, and over means the end of one uninterrupted parse, an overlong line, a failed document, or a close |
| ReceiveLoop.ReceiveBecause | app/src/main/cpp/hwapm/webrtc/base/httpbase.cc:498-578 | a call goes on waiting only when the network has nothing more or has just blocked, when the document has just blocked with data for it buffered, when the client asks to wait, or after twenty reads; it fails or closes only when the last answer of document or network was that |
| ReceiveLoop.CleanClose | app/src/main/cpp/hwapm/webrtc/base/httpbase.cc:479-578 | when a call of DoReceiveLoop meets a clean close, the message is complete if and only if the document has no known length, whatever is buffered; and then the document is whole if and only if nothing is buffered |
| ReceiveLoop.CloseLosesExactly | app/src/main/cpp/hwapm/webrtc/base/httpbase.cc:479-578 | a call completes the message at a clean close with bytes still in the buffer if and only if they were there before it, the close is the first thing it reads, and the document has no known length |
| ReceiveLoop.BufferedDataLost | app/src/main/cpp/hwapm/webrtc/base/httpbase.cc:479-578 | two calls from the start that lose any given data: it arrives while the document blocks, the connection closes, and the message is reported complete with an empty document |
| HttpReceiver.HttpReceiver.DoReceiveLoop | app/src/main/cpp/hwapm/webrtc/base/httpbase.cc:498-578 | outcome, error, parser, buffer and answers used are those of the receive function; the object stays valid until the message is over |
| HttpDelivery.TwentyReads | app/src/main/cpp/hwapm/webrtc/base/httpbase.cc:498-578 | a call reads 21 times at most, and at least 20 times if it stops although there may be more |
| ChunkedCoding.StrToUlOfHex | app/src/main/cpp/hwapm/webrtc/base/httpbase.cc:641-643 | printing a chunk size in eight hex digits and scanning it back is the identity |
| HttpGrammar.ChunkIs | app/src/main/cpp/hwapm/webrtc/base/httpbase.cc:634-648 | a chunk on the wire is its size in eight small hexadecimal digits, "\r\n", the data and "\r\n" |
| ChunkedCoding.DecodeChunk | app/src/main/cpp/hwapm/webrtc/base/httpbase.cc:124-213 | one chunk decodes to exactly its data, whatever the data and whatever follows |
| ChunkedCoding.DecodeBody | app/src/main/cpp/hwapm/webrtc/base/httpbase.cc:124-213 | a chunk sequence decodes up to its first empty chunk |
| ChunkedCoding.BodyRoundTrip | app/src/main/cpp/hwapm/webrtc/base/httpbase.cc:124-213 | decoding a chunk sequence gives both the whole document and all that follows the sequence if and only if no piece is empty |
| HttpSender.HttpSender.constructor | app/src/main/cpp/hwapm/webrtc/base/httpbase.cc:403-437 | the message is what its leader, headers and document make it, chunked if and only if the first Transfer-Encoding is 'chunked'; leader and header end are queued, cut to the buffer |
| HttpSender.HttpSender.QueueHeaders | app/src/main/cpp/hwapm/webrtc/base/httpbase.cc:708-730 | headers are queued while they fit, one too long for the empty buffer is skipped, then the blank line |
| HttpSender.HttpSender.QueueDocument | app/src/main/cpp/hwapm/webrtc/base/httpbase.cc:612-662 | a read becomes a chunk, or plain data, the end of the document the last chunk; nothing overruns the buffer |
| HttpSender.HttpSender.FlushData | app/src/main/cpp/hwapm/webrtc/base/httpbase.cc:589-706 | result, state and answers used are those of the flush function; what is on the wire only grows; complete means that all has been taken |
| SenderState.WithPieceKeeps | app/src/main/cpp/hwapm/webrtc/base/httpbase.cc:634-648 | a piece read keeps: wire plus buffer is head plus coded pieces, pieces plus unread rest is the document |
| FlushData.FlushKeeps | app/src/main/cpp/hwapm/webrtc/base/httpbase.cc:589-706 | whatever document and network answer, a call keeps: wire plus buffer is the head and the body as far as read; complete only when all has been taken |
| FlushTheorems.SpinsExactly | app/src/main/cpp/hwapm/webrtc/base/httpbase.cc:589-706 | while the network blocks the loop has no end if and only if there is no document, the headers are all queued, the buffer is not empty and no write was required before |
| FlushTheorems.SmallMessageSpins | app/src/main/cpp/hwapm/webrtc/base/httpbase.cc:589-706 | a message without headers and document, from its first write on, for any number of blocked writes |
| FlushTheorems.FlushExplained | app/src/main/cpp/hwapm/webrtc/base/httpbase.cc:589-706 | a call waits only after a blocked write, or for a document that blocks or gives nothing while the buffer is empty; breaks off only after an error; is unfinished only when the network has no answer left |
| FlushTheorems.WillingCompletes | app/src/main/cpp/hwapm/webrtc/base/httpbase.cc:589-706 | from every state, with enough answers that neither block nor fail, the call completes the message |
| HttpRoundTrip.HeadOutcome | app/src/main/cpp/hwapm/webrtc/base/httpbase.cc:124-213 | what any clean leader and headers come to: an error of the leader, of a header that is not legible, or of their end; or the headers that arrive, the size that the client makes of the last Content-Length, and chunks if and only if the last Transfer-Encoding says so |
| HttpRoundTrip.RunHead | app/src/main/cpp/hwapm/webrtc/base/httpbase.cc:124-213 | leader and headers that are welcome arrive as they were sent, but for headers that do not fit the buffer |
| HttpRoundTrip.ChunkedRoundTrip | app/src/main/cpp/hwapm/webrtc/base/httpbase.cc:589-706 | where the headers that arrive say chunked, whatever the schedule, a completed chunked message parses to its leader and headers, and both to exactly its document and to its own end if and only if no read of the document gave nothing |
| HttpRoundTrip.PlainRoundTrip | app/src/main/cpp/hwapm/webrtc/base/httpbase.cc:589-706 | the same without chunking when the size that the headers declare, as the client passes it on, is that of the document |
| HttpRoundTrip.SpelledOtherwise | app/src/main/cpp/hwapm/webrtc/base/httpbase.cc:163-164 | a completed message with "Transfer-Encoding: Chunked" is an error to its receiver |
| HttpLines.ShortRest | app/src/main/cpp/hwapm/webrtc/base/httpbase.cc:498-526 | where no line of the input is longer than the buffer, the part of a line that waits for its end fits it |
| HttpTransfer.DocumentUnderstood | app/src/main/cpp/hwapm/webrtc/base/httpbase.cc:141-174 | the Content-Length, or the Transfer-Encoding, that HttpData sets for a document, among any other clean headers, makes the message one that a client understands which passes sizes on |
| HttpTransfer.SentMessage | app/src/main/cpp/hwapm/webrtc/base/httpbase.cc:403-437 | from send on, with enough willing answers, the wire carries exactly the message |
| HttpTransfer.Delivered | app/src/main/cpp/hwapm/webrtc/base/httpbase.cc:498-578 | over any number of calls of DoReceiveLoop with any cuts, blocks and failures, a receiver that has part of such a wire reports the message only with all of it, exactly; with all of it waits only for document or client; never takes a close for the end; and never overflows its buffer |
| HttpTransfer.LastCall | app/src/main/cpp/hwapm/webrtc/base/httpbase.cc:498-578 | once the wire has arrived, the next call with nothing in the way ends with the message |
| HttpTransfer.Transfer | app/src/main/cpp/hwapm/webrtc/base/httpbase.cc:498-706 | both for the two objects, a completed sender and a receiver that is given its wire |
| HttpDelivery.ReceiveFromFlows | app/src/main/cpp/hwapm/webrtc/base/httpbase.cc:498-578 | no call loses a byte of what the network gives, gives the document less than it takes, or asks for another call without having used an answer, unless there is none |
| HttpDelivery.EnoughCalls | app/src/main/cpp/hwapm/webrtc/base/httpbase.cc:498-578 | while the connection stays open and the document goes on taking, a receiver that is called often enough ends with the message, whole and exact, whatever the sizes of the reads and the waits of network and document |
| HttpDelivery.Delivery | app/src/main/cpp/hwapm/webrtc/base/httpbase.cc:403-706 | from a new sender to a new receiver, through writes, reads and waits of any sizes: the message arrives |
| Crc32.Crc32.EnsureTableInited | app/src/main/cpp/hwapm/webrtc/base/crc32.cc:24-38 | the nested loops fill the table with eight steps from each index, once; a filled table is known by its last entry |
| Crc32.Crc32.UpdateCrc32 | app/src/main/cpp/hwapm/webrtc/base/crc32.cc:40-49 | the table form computes the one-bit-at-a-time definition, for every start value and buffer; which CRC that is, is told by the next three rows |
| CrcDivision.FeedIsRemainder | app/src/main/cpp/hwapm/webrtc/base/crc32.cc:21-49 | a register is that after a message if and only if it is congruent to message and start modulo x^32 + x^26 + x^23 + x^22 + x^16 + x^12 + x^11 + x^10 + x^8 + x^7 + x^5 + x^4 + x^2 + x + 1 |
| CrcDivision.CrcIsRemainder | app/src/main/cpp/hwapm/webrtc/base/crc32.cc:40-49 | a checksum is the complement of that remainder, and there is no other |
| CrcCheckValue.CheckValue | app/src/main/cpp/hwapm/webrtc/base/crc32.cc:20-49 | the published check value: from 0, the characters 1 to 9 give 0xCBF43926 |
| CrcCode.FeedByteIsFeed | app/src/main/cpp/hwapm/webrtc/base/crc32.cc:45-47 | one look-up does what eight single steps do |
| CrcCode.CrcAppend | app/src/main/cpp/hwapm/webrtc/base/crc32.cc:40-49 | updating with a and then b is updating with a + b |
| CrcCode.ChangeDetected | app/src/main/cpp/hwapm/webrtc/base/crc32.cc:40-49 | two buffers that differ in one byte, or only within four consecutive bytes, always have different checksums |
| CrcCode.BurstDetected | app/src/main/cpp/hwapm/webrtc/base/crc32.cc:40-49 | the same for any 32 consecutive bits |
| CrcCode.CrcInjectiveInStart | app/src/main/cpp/hwapm/webrtc/base/crc32.cc:40-49 | different starting values give different results |
| DiskCache.DiskCache.LockResource | app/src/main/cpp/hwapm/webrtc/base/diskcache.cc:99-111 | refused, granted, or the entry is lost to the check of the limit, exactly as the lock states, accessors, totals and the files that cannot be deleted say |
| DiskCache.DiskCache.WriteResource | app/src/main/cpp/hwapm/webrtc/base/diskcache.cc:113-139 | only on a locked entry; the old file no longer counts, and stream, accessors and totals follow |
| DiskCache.DiskCache.WriteData | app/src/main/cpp/hwapm/webrtc/base/diskcache.cc:37-56 | what a caller writes to an open stream changes its file and no account |
| DiskCache.DiskCache.UnlockResource | app/src/main/cpp/hwapm/webrtc/base/diskcache.cc:141-154 | a locked entry becomes unlocking or unlocked, and in the second case the limit is checked, whatever comes of that |
| DiskCache.DiskCache.ReadResource | app/src/main/cpp/hwapm/webrtc/base/diskcache.cc:156-171 | only an unlocked entry, a known stream and an existing file open; that all that is stored is known is told by the rows of CacheStorage |
| DiskCache.DiskCache.ReleaseResource | app/src/main/cpp/hwapm/webrtc/base/diskcache.cc:316-345 | the stream leaves the accounts; a written one counts with its new size; the last one ends the unlocking |
| DiskCache.DiskCache.DeleteResource | app/src/main/cpp/hwapm/webrtc/base/diskcache.cc:188-212 | removes an entry and its size just when it is unlocked and unopened, with those of its files that can be deleted; true just when these are all |
| DiskCache.DiskCache.CheckLimit | app/src/main/cpp/hwapm/webrtc/base/diskcache.cc:214-249 | result and evicted entries are those of the limit function, whichever files cannot be deleted: it evicts in the order of the scan up to the first failure, succeeds exactly when it ends within the limit with nothing left behind, and terminates |
| CacheChoice.ChoiceIsOldest | app/src/main/cpp/hwapm/webrtc/base/diskcache.cc:225-245 | the scan finds the entry last modified longest ago among the first unused entry of the map and all behind it, used or not; nobody just when none is unused; and leaves the map just when that first one is also the last |
| CacheChoice.LimitEvicts | app/src/main/cpp/hwapm/webrtc/base/diskcache.cc:225-248 | only unused entries go, only while over the limit; success is within the limit, and each way of giving up says how things stand |
| CacheLimit.OldestGoFirst | app/src/main/cpp/hwapm/webrtc/base/diskcache.cc:225-248 | least recently used: no entry that goes was modified after an unused one that stays |
| CacheLimit.InUseExactly | app/src/main/cpp/hwapm/webrtc/base/diskcache.cc:231-247 | told from the state before the call: it tries an entry in use if and only if one follows an unused and newer one in the map, and evicting the unused entries older than it is not enough; with equal times one bound each way |
| CacheLimit.LeavesExactly | app/src/main/cpp/hwapm/webrtc/base/diskcache.cc:226-245 | it leaves the map if and only if it tries no entry in use, and the newest unused entry is followed by none in use and is needed; with equal times one bound each way |
| CacheLimit.SucceedsExactly | app/src/main/cpp/hwapm/webrtc/base/diskcache.cc:225-248 | it succeeds if and only if neither is so and evicting all unused entries is enough |
| CacheLimit.GoesExactly | app/src/main/cpp/hwapm/webrtc/base/diskcache.cc:225-248 | in a successful call an unused entry goes if and only if evicting the unused ones older than it is not enough |
| CacheLimit.StuckExactly | app/src/main/cpp/hwapm/webrtc/base/diskcache.cc:188-249 | files that cannot be deleted change nothing if their entries would stay; otherwise the same entries go, up to the first with such a file, and the call fails there |
| CacheLimit.LosesExactly | app/src/main/cpp/hwapm/webrtc/base/diskcache.cc:99-111 | LockResource loses the entry that it locks if and only if CheckLimit would succeed, the entry is unused, evicting the unused ones older than it is not enough, and no entry that goes has a file that cannot be deleted |
| CacheLimit.LosesBounds | app/src/main/cpp/hwapm/webrtc/base/diskcache.cc:99-111 | the same for equal times, one bound each way |
| CacheRuns.ApplyKeeps | app/src/main/cpp/hwapm/webrtc/base/diskcache.cc:99-345 | every call keeps the accounts |
| CacheRuns.RunKeepsAccounts | app/src/main/cpp/hwapm/webrtc/base/diskcache.cc:99-345 | after any calls the totals are the sums over the entries, accessors are the open streams, readers are open only on unlocked entries and writers only on the others, and no open entry is missing |
| CacheRuns.OnlyIdleRemoved | app/src/main/cpp/hwapm/webrtc/base/diskcache.cc:188-249 | no call removes a locked or open entry, but for the one that ends its lock or last use |
| CacheCalls.LockStateIs | app/src/main/cpp/hwapm/webrtc/base/diskcache.cc:99-345 | the lock of an entry after any call, told from the open streams: UnlockResource ends it, at once or with the last of them; LockResource takes it if granted; nothing else changes it |
| CacheCalls.DeletedExactly | app/src/main/cpp/hwapm/webrtc/base/diskcache.cc:188-212 | DeleteResource removes exactly an unlocked entry without open streams, its size, and those of its files that can be deleted |
| CacheStorage.StoredCanBeRead | app/src/main/cpp/hwapm/webrtc/base/diskcache.cc:99-186 | a new resource that fits: lock, write and close of any streams, and unlock evict nothing, and then every stream opens for reading with the size written, and no other stream does |
| CacheStorage.ContentStays | app/src/main/cpp/hwapm/webrtc/base/diskcache.cc:99-345 | over every run that does not remove the entry its files hold what its clients have written last, whatever else happens |
| CacheStorage.ReadsWhatWasWritten | app/src/main/cpp/hwapm/webrtc/base/diskcache.cc:156-171 | over every such run: once the entry is unlocked, a stream opens for reading if and only if it has been written, with the size written last |
| CacheStorage.GrantedExactly | app/src/main/cpp/hwapm/webrtc/base/diskcache.cc:99-111 | with room in the cache a lock is granted if and only if nobody has it and nobody reads |
| CacheStorage.LockHolds | app/src/main/cpp/hwapm/webrtc/base/diskcache.cc:99-345 | over every run without its UnlockResource a locked entry stays, stays locked, and has no reader |
| CacheStorage.TimeOfUnlocking | app/src/main/cpp/hwapm/webrtc/base/diskcache.cc:99-345 | the time of an entry is that of the call that has made it, or has unlocked it since |
| CacheFindings.LargeEntryLeavesTheMap | app/src/main/cpp/hwapm/webrtc/base/diskcache.cc:225-245 | a run after which unlocking the only entry, larger than the cache, compares it with one behind the end of the map |
| CacheFindings.LockCanLose | app/src/main/cpp/hwapm/webrtc/base/diskcache.cc:105-109 | a run from the empty cache to where locking "a" evicts "a", if it was unlocked in an earlier second than "b" was created; in the same second the lock is refused, although evicting "a" would make room |
| CacheDisk.RunKeepsDisk | app/src/main/cpp/hwapm/webrtc/base/diskcache.cc:113-345 | as long as no second writer is opened on a stream and all files can be deleted, the size of an entry is that of its files not being written |
| CacheDisk.FromEmptyDisk | app/src/main/cpp/hwapm/webrtc/base/diskcache.cc:113-345 | so it is from the empty cache on |
| CacheDisk.WriterOpenedExactly | app/src/main/cpp/hwapm/webrtc/base/diskcache.cc:118-134 | opening a writer leaves the sizes right if and only if what is taken off for its file was counted, or is nothing, and no file left by an earlier entry becomes one of its streams; for a counted file the assertion on the previous size holds |
| CacheDisk.ReleasedExactly | app/src/main/cpp/hwapm/webrtc/base/diskcache.cc:328-338 | closing a stream leaves the sizes right if and only if no other writer is open on it, or its file is empty |
| CacheDisk.RunExactly | app/src/main/cpp/hwapm/webrtc/base/diskcache.cc:113-345 | over every run, also one in which files cannot be deleted, the sizes are right before and after every call if and only if no call does any of that |
| CacheDisk.FromEmptyExactly | app/src/main/cpp/hwapm/webrtc/base/diskcache.cc:113-345 | the same from the empty cache on |
| CacheFindings.TwoWritersMiscount | app/src/main/cpp/hwapm/webrtc/base/diskcache.cc:328-338 | with two writers a run ends with a size of ten for five bytes on disk |
| CacheFindings.TwoWritersUndercount | app/src/main/cpp/hwapm/webrtc/base/diskcache.cc:118-134 | with two writers that both leave their file empty a run ends with a size of two for five bytes on disk |
| CacheFindings.LeftoverMiscount | app/src/main/cpp/hwapm/webrtc/base/diskcache.cc:113-134 | a run that ends with a size of zero for five bytes: the file of a deleted resource could not be deleted, and the resource is stored again from its second stream on |

## Left out

- BitBuffer.BitBuffer.WriteBits: 0 or more than 64 bits shift outside the range that C++ defines, so they are excluded.
- BitBuffer.BitBuffer.PeekBits: 0 bits at the very end would read behind the buffer, so that is excluded.
- DiskCache.DiskCache.CheckLimit: where the source looks behind the end of the map, which has no defined meaning, the
  model gives up, as if nothing could be evicted.
- DiskCache.DiskCache.WriteResource: an entry for the id is required, as it is for ReadResource and UnlockResource; the
  source dereferences NULL without one.
- DiskCache.DiskCache.DeleteResource: file names are pairs of id and index, which assumes that the name encoding keeps
  different ids apart.
- FileRotatingStream.FileRotatingStream.Write: file operations other than an append succeed; reopening a closed stream,
  Flush, GetSize and buffering are left out.
- FileRotatingReader.FileRotatingReader.Read: the files do not change and can be opened while they are read.
- HttpSender.HttpSender.ReadDocument: a document has no bytes after it has once been at its end; when the script of its
  answers, or that of the document that receives, is at its end, it blocks.
- Weak memory effects on `owning_thread_` and `recursion_`: the steps of the lock are sequentially consistent; its
  Windows and pthread branches, GlobalLockPod and the debug counters are left out.
- CriticalSection.InvStep: the lock is modelled on values, not as a class, because its methods interleave; the order of
  waiters in the semaphore, and fairness, are left out.
- SendRaw, listening and connecting sockets, and the signals other than packets and readiness.
- ReadUInt8 and its relatives, ConsumeBytes and GetCurrentOffset: one call of what is modelled.
- `Initialize`, `Purge` and the entries found on disk at start.
- HTTP authentication, URLs and caching, and the DocumentStream that pulls instead of being pushed to.
- `strtoul`, `sprintfn` and `isspace` are functions with the behaviour used here; `sscanf` of a header value is a
  parameter, of which `HttpTransfer.DocumentUnderstood` assumes that it reads numerals.
- HttpTransfer.DocumentUnderstood: documents of 2 GB or more, whose length is printed as a negative number, are left
  out.
- LineText.SizeLine: `size_t` and `unsigned long` have 64 bits.
