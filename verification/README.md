# lwNBD, verified

A Dafny model of lwNBD, the small-buffer block server, from the bytes of a client's connection down to the pages of a
flash card, with proofs of what the code does on every input and every run. `dafny verify dfyconfig.toml` checks it.

## What is modelled

**A client's session** (`Session`, `Handshake`, `Haggling`, `Options`, `Transmission`, `Phase`, `Wire`). The session loop
runs the handshake and then the transmission phase over a socket. Both are imperative, with the code's own registers,
buffers and retry counter. What they may do is said on values: a handshake is the function `Conclude` of what the client
sends, and a transmission phase is a list of exchanges, each of which is allowed by `ExchangeOk`. `Runs` and `RunFacts`
compare such a list with a plain array of bytes that knows no blocks, chunks, buffers or retries. The export keeps a log of
every call made through its entry points, with the code the plugin returned (`Calls`, `Export`), and the calls of a run are
proved to be exactly that log.

**The memory-card plugin** (`McCard`, `Nand`, `CardWrite`, `FlashRules`, `Masks`). A write of pages becomes erasing and
reprogramming whole blocks through one shared buffer. Any flash operation may fail. `Composition` joins this to an NBD
WRITE.

**The ways data moves in pieces**: the transport's and the file plugin's partial transfers (`Socket`, `FileDev`), the
terminal's ring buffer (`Tty`), and the character generator (`Chargen`). Each is proved against the plain stream or file.

**Names** (`Contexts`, `Uri`, `Yuarel`, `Query`, `PathSplit`, over `Split` and `Text`). The pool of contexts and its
lookup, and the URI parser that cuts strings in the caller's buffer. The parser is proved against splitting and joining on
values, both ways.

What the code calls and the model cannot see is a parameter: how many bytes each recv, send, pread and pwrite moves, what
each flash operation returns, what a failed operation leaves on a page, the checksum, a plugin's constructor, its query
hook and its size. Every theorem holds for all of them. What is said of the content of the streams needs every send to be
complete: it holds whenever the socket's flag `short` is down, and the flag stays down over every transport that takes all
of each send (`Socket.Complete`).

## How far the code meets its promises

These were found true only under a condition, and each is stated as an equivalence.

- A card write is the write asked for exactly when `offset & (pagesPerBlock - 1)` is the offset inside the block, and that
  is so for all offsets exactly when `pagesPerBlock` is a power of two (`CardWrite.SplicesIffMaskFits`,
  `Masks.MaskIsModIffPow2`).
- An accepted request lies inside the export exactly when its end does not wrap in 64 bits (`RunFacts.AcceptedInsideIff`,
  and a wrapping request that is accepted, `RunFacts.WrappingRequestAccepted`).
- A READ returns the bytes asked for, and a WRITE stores its payload where it was asked to, exactly when they are whole
  blocks (`RunFacts.ReadsExactlyIffAligned`, `RunFacts.WritesExactlyIffAligned`). A WRITE takes exactly its payload off the
  stream exactly when its count is whole blocks; the rest is read as a request (`RunFacts.WriteTakesIffAligned`).
- A READ cut short by the transport leaves the send flag up. A request rejected afterwards then still calls the plugin: a
  READ exactly when the flag was up, a WRITE, even to a read-only export, exactly when also a first chunk arrives
  (`Transmission.Server.ServeRead`, `Transmission.Server.ServeWrite`; two such requests, `Transmission.StaleFlag`). Over a
  transport that takes every send this does not happen (`RunFacts.ReadOnlyRun`).
- The handshake writes one byte past its buffer exactly when some option it takes carries as much data as the buffer holds
  (`Negotiation.Handshake.ProtocolHandshake`, `Haggling.OverrunsIff`; any such option, `Haggling.LongestOverruns`).
- A lookup calls through a null plugin exactly when the first context of the path's name has none (`Uri.NullPluginIff`). In
  a session, which has such a context of its own, it does so exactly for an empty path when no registered context is
  unnamed (`Uri.SessionNullPlugin`, `Uri.EmptyPathIff`; for instance '/', `Uri.SlashIsNullPlugin`).
- Registration writes through a null pointer exactly when it needs a context and the pool is full (`Contexts.Pool.PluginNew`,
  `Contexts.Pool.PluginInit`).
- A terminal read is certain to return the next bytes exactly when the reader is at most 4096 bytes behind, and a write
  keeps the ring right exactly when its second copy stays below the spare byte (`Tty.ReadsExactlyIff`,
  `Tty.KeepsRecentIff`).
- The read-only flag a server advertises is enforced exactly when the server is not configured read-only or the plugin
  cannot write anyway (`Negotiation.AdvertisedIsEnforcedIff`).
- The server compares 32 bits of global flags but greets with 16, so a client can repeat them exactly when they fit
  (`Negotiation.FlagsRepeatable`).
- A session that negotiates takes a context from the pool and never gives it back, so after 50 contexts no session starts
  (`Session.Client.Serve`).

Where the code and the NBD protocol disagree the code is followed: the options the protocol calls INFO and GO are answered
as unsupported, and a failed WRITE does not drain its payload (`RunFacts.FailedWriteTakes`).

## Model

| member | source | states |
|---|---|---|
| Session.WholeSession | servers/nbd/nbd.c:112-165 | On values: a client that haggles, names an export, sends aligned commands and closes gets the greeting, one answer per option, the reply to the name and exactly a byte array's answers, and the export ends as that array, if no plugin call failed that the plugin could serve |
| Session.Client.ServeScript | servers/nbd/nbd.c:112-165 | The same of the session itself, on assumptions about the world alone: the transport takes every send and nothing under the plugin fails. What the socket was sent is the reference's answers, and the plugin's bytes end as the array does |
| Session.Client.Serve | servers/nbd/nbd.c:112-165 | Phases come in order, none twice; the result is always -1; each negotiating session keeps one pool slot; the plugin was called exactly as the run says; and over a transport that takes every send all that was sent and received, and the change of the disk, is one handshake and one run |
| Session.Client.Phases | servers/nbd/nbd.c:143-163 | The same for the loop alone, from either starting state |
| Session.Client.Handshake | servers/nbd/nbd.c:146-151 | Handshake leaves the disk alone and is `Conclude` |
| Session.Client.Transmit | servers/nbd/nbd.c:152-156 | Transmission leaves the pool alone and is one accounted run, whose plugin calls are exactly the calls the export was made, and which succeeded wherever they could if nothing under the plugin fails |
| Negotiation.Handshake.ProtocolHandshake | servers/nbd/protocol-handshake.c:21-189 | A 0 return means ABORT, or TRANSMISSION with a context, whatever is sent or received; when every send was complete, as over a transport that takes all of them, the output, the consumed input, the state, the context and the pool are those of `Conclude`, and the byte after the buffer is overwritten exactly if `WritesPast` |
| Negotiation.Handshake.HaggleOptions | servers/nbd/protocol-handshake.c:50-188 | The option loop consumes exactly the haggling run of its input and sends exactly its answers |
| Negotiation.Handshake.NextOption | servers/nbd/protocol-handshake.c:54-79 | One option is 16 header bytes and its data, or the phase stops with the stream where the code leaves it; the byte after the buffer is overwritten exactly by an option as long as the buffer |
| Negotiation.Handshake.ExportName | servers/nbd/protocol-handshake.c:83-113 | The context is the one the URI resolves to, or the session's own for an empty name; without one nothing is sent |
| Negotiation.Handshake.FindContext | servers/nbd/protocol-handshake.c:86-96 | The name in the buffer leads to the context its URI resolves to, and updates that context's size and no other |
| Negotiation.Handshake.AbortSession | servers/nbd/protocol-handshake.c:115-126 | ABORT is acknowledged and ends the phase |
| Negotiation.Handshake.SendList | servers/nbd/protocol-handshake.c:128-169 | LIST sends one SERVER reply for each context of the pool, in order, and one ACK |
| Negotiation.Handshake.SendEntry | servers/nbd/protocol-handshake.c:134-161 | The four sends for a context are one SERVER reply whose declared length is that of its payload |
| Negotiation.Handshake.AnswerOption | servers/nbd/protocol-handshake.c:128-186 | Any option that does not end the phase is sent exactly its answer, of which `Haggling.AnswerTold` says what a client reads in it |
| Negotiation.NamedExport | servers/nbd/protocol-handshake.c:30-113 | A client that repeats the flags, asks any questions and names a context ends in transmission with that context; what follows is left unread |
| Negotiation.AbortConcludes | servers/nbd/protocol-handshake.c:115-126 | A client that asks any options and then aborts hears the pool at each LIST, a refusal at each other option and one ACK of the ABORT; the context and the pool stay, and what it sent after that is left |
| Negotiation.NameConcludes | servers/nbd/protocol-handshake.c:83-113 | A client that ends with a name: an empty one leads to the context of the session and any other to that of its URI; if there is one it hears the answers and the reply to the name and is in transmission, and if not only the answers, and the handshake has failed |
| Negotiation.StopConcludes | servers/nbd/protocol-handshake.c:54-73 | A client that ends with what is no option that fits: the handshake has failed after the answers and changed nothing; all that came was taken, or just a header of the wrong version or with too much data to come |
| Negotiation.OtherFlagsConclude | servers/nbd/protocol-handshake.c:30-48 | A client that sends other flags hears only the greeting, and what follows them is left |
| Negotiation.SucceedsIff | servers/nbd/protocol-handshake.c:39-126 | The handshake succeeds if and only if what the client sent is the server's flags, the encodings of any options that fit and do not end the phase, and an ABORT or a name that leads to a context, whatever follows |
| Negotiation.GreetingReads | include/lwnbd/nbd-protocol.h:62-73 | A client reads both magics and the flags off the greeting |
| Negotiation.ExportReplyReads | include/lwnbd/nbd-protocol.h:87-92 | A client reads the size and flags off the reply to EXPORT_NAME, and zeros unless it asked for none |
| Negotiation.FlagsRepeatable | servers/nbd/protocol-handshake.c:32-48 | The greeted flags are the compared ones if and only if they fit 16 bits |
| Negotiation.AdvertisedFlags | servers/nbd/protocol-handshake.c:99-103 | The flags advertised are the export's, and read-only besides on a server configured so |
| Negotiation.AdvertisedIsEnforcedIff | servers/nbd/protocol-handshake.c:99-103 | Advertised read-only agrees with enforced read-only if and only if the server is not read-only or the export is |
| Haggling.HaggleScript | servers/nbd/protocol-handshake.c:54-79 | Any options that fit, then one that ends the phase, are haggled one by one and nothing after them is read |
| Haggling.HaggleConsumes | servers/nbd/protocol-handshake.c:54-79 | Over every byte stream, the options of a run consume exactly header and data each, and so does the one that ends the phase |
| Haggling.OverrunsIff | servers/nbd/protocol-handshake.c:67-79 | Haggling writes past the end of its buffer if and only if some option it takes off the stream carries data as long as the buffer |
| Haggling.LongestOverruns | servers/nbd/protocol-handshake.c:67-79 | Every option with data of that length does so |
| Haggling.OptDecodes | include/lwnbd/nbd-protocol.h:76-82 | An encoded option is taken off the stream unchanged |
| Haggling.OptEncodes | include/lwnbd/nbd-protocol.h:76-82 | An option taken off encodes to exactly the bytes consumed |
| Haggling.TakenIff | servers/nbd/protocol-handshake.c:54-79 | An option is taken if and only if the encoding of one that fits stands at the front of the stream |
| Haggling.OptFields | include/lwnbd/nbd-protocol.h:76-82 | Byte by byte, where the code, the length and the data of an option lie in the stream |
| Haggling.AnswerIsOne | servers/nbd/protocol-handshake.c:128-186 | Every option that does not end the phase gets exactly one terminal reply, the last, and all its replies echo its code |
| Haggling.AnswersDecode | servers/nbd/protocol-handshake.c:128-186 | A client that reads replies up to a terminal one for each option it sent gets exactly those answers, in order |
| Haggling.AnswerTold | servers/nbd/protocol-handshake.c:128-186 | The answer to LIST decodes to the names and descriptions of the whole pool, and that to any other option to one refusal that echoes its code |
| Haggling.TalkDecodes | servers/nbd/protocol-handshake.c:128-186 | A client that reads one answer for each option it sent is told the pool at exactly its LISTs and a refusal at each other option, and has the rest of the stream before it |
| Options.ReplyDecodes | include/lwnbd/nbd-protocol.h:95-103 | A reply comes back from the wire with the rest of the stream |
| Options.ItemDecodes | servers/nbd/protocol-handshake.c:134-161 | Name and description come back from a SERVER payload |
| Options.ListRoundTrip | servers/nbd/protocol-handshake.c:128-169 | Decoding the answer to LIST gives exactly the names and descriptions of the pool, in order, and the rest of the stream |
| Transmission.Server.TransmissionPhase | servers/nbd/protocol.c:36-193 | The plugin calls of the run are exactly the calls the export was made; when every send was complete, as over a transport that takes all of them, the phase is a run of allowed exchanges linked by the disk; output and input are exactly their replies and requests; 0 is returned only for a disconnect |
| Transmission.Server.Requests | servers/nbd/protocol.c:36-191 | The same for the request loop: after every request the run so far accounts for both streams, the disk and the plugin calls |
| Transmission.Server.Serve | servers/nbd/protocol.c:64-191 | One request, whatever its type, is one allowed exchange, and makes the plugin calls of that exchange and no others |
| Transmission.Server.ServeRead | servers/nbd/protocol.c:66-120 | A READ is one header and then the payload `ReadOk` allows, and makes the plugin calls of its exchange; a rejected READ calls pread if and only if the send flag was up before it; an accepted one leaves the flag up if and only if more than a chunk is left, and then its last send was short |
| Transmission.Server.SendChunks | servers/nbd/protocol.c:87-119 | The chunk loop ends for every pattern of plugin failures, delivering whole chunks up to the end or to one failure too many in a row; the calls it accounts for are the calls the export was made |
| Transmission.Server.ReadChunk | servers/nbd/protocol.c:89-118 | One turn makes one pread, of exactly its chunk, and sends exactly that chunk of the disk if it succeeded, or costs one retry |
| Transmission.Server.ServeWrite | servers/nbd/protocol.c:122-168 | A WRITE consumes exactly its payload and splices it in, or is rejected with the code of the failing check; a rejected one calls pwrite if and only if the send flag was up before it and the first chunk of the loop arrives |
| Transmission.Server.RecvChunks | servers/nbd/protocol.c:139-163 | The chunk loop splices one chunk after another, and stops at the first failure; it calls the plugin if and only if the send flag is up and a first chunk arrives, and its calls are the calls the export was made |
| Transmission.Server.WriteChunk | servers/nbd/protocol.c:141-162 | One turn moves exactly one chunk from the stream to the disk by one pwrite, or ends the loop with the stream and the disk where the code leaves them |
| Transmission.Server.StoreChunk | servers/nbd/protocol.c:151-158 | The one pwrite of a chunk, whose code decides between splicing it in and spoiling only the units it touches |
| Transmission.Server.ServeFlush | servers/nbd/protocol.c:175-180 | FLUSH calls the plugin once, whatever the transport does; on a file it makes one system call, and the error is EIO if and only if that call failed |
| Transmission.Server.ServeOther | servers/nbd/protocol.c:182-190 | Any other command gets EINVAL under its own handle |
| Transmission.CutRead | servers/nbd/protocol.c:87-106 | The READ that leaves the send flag up |
| Transmission.StaleFlag | servers/nbd/protocol.c:103-139 | A read-only export that is written: a READ whose payload the transport does not take, and then a WRITE that is refused and calls pwrite |
| Phase.ReadTurn | servers/nbd/protocol.c:89-110 | A good turn keeps the loop's state: the payload so far is the disk from the first block on, all retries restored |
| Phase.ReadRetry | servers/nbd/protocol.c:111-114 | A failed turn keeps it with one retry less |
| Phase.ReadGivesUp | servers/nbd/protocol.c:115-118 | With no retry left the phase ends after whole chunks |
| Phase.WriteTurn | servers/nbd/protocol.c:141-158 | A good turn keeps the write loop's state: the disk is the old one with the payload so far spliced in |
| Phase.WriteFails | servers/nbd/protocol.c:152-155 | A refused chunk ends the WRITE with EIO: the chunks before it are spliced in, and it spoils only the erase blocks (or file bytes) it touches |
| Phase.WriteStarves | servers/nbd/protocol.c:159-162 | A payload that stops short ends the WRITE with EOVERFLOW, earlier chunks spliced in |
| Runs.ExchangeIsReference | servers/nbd/protocol.c:64-191 | An aligned request served without failure is answered as the byte array answers it, and changes the disk the same way |
| Runs.CallsInside | servers/nbd/protocol.c:69-98 | Every plugin call of a request that does not wrap, aligned or not, covers only blocks inside the export |
| Runs.ProperSucceeds | servers/nbd/protocol.c:64-191 | If no call failed that the plugin could serve, no call of a well-behaved command failed |
| Runs.RunIsReference | servers/nbd/protocol.c:36-193 | Every run over aligned permitted commands, in which no plugin call failed that the plugin could serve, answers exactly what the byte array answers, consumes exactly the commands, and ends in the same content; buffer length and retry limit do not appear |
| RunFacts.FinalDiskIsLastBytes | servers/nbd/protocol.c:122-168 | After any script each byte of the array is the one last written there |
| RunFacts.ReadsLastWritten | servers/nbd/protocol.c:66-120 | A READ in range answers with exactly the bytes last written |
| RunFacts.AcceptedInsideIff | servers/nbd/protocol.c:69-70 | An accepted request is inside the export if and only if its end does not wrap |
| RunFacts.WrappingRequestAccepted | servers/nbd/protocol.c:69-70 | A request past the end that passes the range check |
| RunFacts.LogInside | servers/nbd/protocol.c:69-98 | Over a whole run without wrapping requests every call the plugin was made covers only blocks inside the export |
| RunFacts.FailedWriteSpares | servers/nbd/protocol.c:152-155 | However a WRITE fails in the plugin, every byte outside the erase blocks (or file bytes) of its range is as it was |
| RunFacts.ReadOnlyRun | servers/nbd/protocol.c:124-125 | Over any run of a read-only export no pwrite is among the calls the plugin was made, and the disk stays as it was |
| RunFacts.ErrorsAre | servers/nbd/protocol.c:66-190 | The error of every exchange, aligned or not: EPERM if and only if a WRITE meets a read-only export, ENOSPC or EIO if and only if the 64-bit end lies past the export, EIO for a flush that failed, EINVAL for every other command |
| RunFacts.CallAt | servers/nbd/protocol.c:74-98 | The calls of a READ or WRITE: each starts where the successful ones before it left off, from the block of the offset on, and is for as many blocks as fit in the buffer or are left |
| RunFacts.FailedWriteTakes | servers/nbd/protocol.c:139-158 | A WRITE that fails in the plugin has taken its payload up to the end of the failing chunk, and leaves the rest to be read as a request |
| RunFacts.StarvesIff | servers/nbd/protocol.c:145-162 | An accepted WRITE that the plugin did not refuse ends with EOVERFLOW if and only if its whole blocks did not all arrive |
| RunFacts.RepliesAccountedFor | servers/nbd/protocol.c:59-191 | Over every run, a client that knows the block size takes off the stream one reply for each finished request, in order, under its own handle, with its error and payload; nothing is left over but the start of a READ that was given up |
| RunFacts.RenderedShape | servers/nbd/protocol.c:59-85 | One finished exchange is one header and the whole blocks that were asked for |
| RunFacts.FailedRowMeans | servers/nbd/protocol.c:111-118 | The retry accounting counts exactly consecutive failures |
| RunFacts.ReadDelivery | servers/nbd/protocol.c:87-119 | A READ is answered in full if and only if the preads made for it never failed more than the retry limit in a row; otherwise whole chunks were sent |
| RunFacts.FinishedReads | servers/nbd/protocol.c:74-105 | The payload of a finished READ is the whole blocks of its count, from the block of its offset on |
| RunFacts.ReadsExactlyIffAligned | servers/nbd/protocol.c:74-77 | The bytes sent are those asked for if and only if the request is whole blocks |
| RunFacts.WritesExactlyIffAligned | servers/nbd/protocol.c:131-134 | For every disk and payload an accepted WRITE is the splice asked for if and only if it is whole blocks |
| RunFacts.WriteTakesIffAligned | servers/nbd/protocol.c:131-158 | A completed WRITE takes the whole blocks of the client's payload and leaves the rest to be read as a request; it takes exactly the payload if and only if the count is whole blocks |
| Wire.RequestRoundTrip | include/lwnbd/nbd-protocol.h:203-211 | A request comes back from the wire |
| Wire.RequestBytes | include/lwnbd/nbd-protocol.h:203-211 | A decoded request encodes to the bytes it came from |
| Wire.RequestFields | include/lwnbd/nbd-protocol.h:203-211 | Byte by byte, where the fields of a request lie |
| Wire.DecodedFits | servers/nbd/protocol.c:54-57 | Decoded fields fit their widths |
| Wire.ReplyRoundTrip | include/lwnbd/nbd-protocol.h:214-219 | A reply header comes back from the wire, whatever follows |
| Wire.FromBEOfBE | include/lwnbd/nbd-protocol.h:38-41 | An integer that fits comes back from network byte order |
| Wire.BEOfFromBE | include/lwnbd/nbd-protocol.h:38-41 | Bytes in network order come back from their integer |
| Endian.SwapIsNetworkOrder | ports/playstation2/common/include/endian.h:7-10 | Stored after the swap, an integer lies in memory in network order |
| Endian.SwapReverses | ports/playstation2/common/include/endian.h:7-10 | The swap reverses the stored bytes |
| Endian.SwapTwice | ports/playstation2/common/include/endian.h:7-10 | The same function decodes what it encoded |
| Composition.AcceptedWriteOnCard | servers/nbd/protocol.c:124-163 | A WRITE completed on a card is one splice of pages, whatever the buffer length and however chunks fell on erase blocks |
| Exports.Export.constructor | servers/nbd/nbd.c:23-49 | The flags are exactly those of the entry points the plugin fills, the block size is the plugin's and the size is its content's |
| Exports.Export.Pread | src/contexts.c:19-23 | Every call is logged with its code; a good read is the blocks asked for; for blocks that exist the plugin makes exactly the reads of its pages, or system calls that move all the bytes, and the code is theirs: that of the last flash operation, or -1 if and only if a system call failed, and so 0 when nothing under the plugin fails |
| Exports.Export.Pwrite | src/contexts.c:25-29 | Every call is logged with its code; a good write splices the blocks in; a failed one changes nothing outside the erase blocks (or file bytes) it touches; for blocks that exist the plugin is asked, a file by system calls that move all the bytes, and the code is theirs, and so 0 when nothing under the plugin fails |
| Exports.Export.Flush | src/contexts.c:31-34 | Every call is logged with its code; a flush changes nothing; on a file it is one system call, and its code is 0 if and only if that succeeded |
| MemoryCard.McCard.Pwrite | plugins/mcman/mcman_d.c:151-190 | Success leaves the card as the old pages with the written ones spliced in, all others restored, and every page of the touched blocks with the checksums of its own four quarters in its spare bytes, in order, and zeros after them; the operations issued are the plan up to the first failure, whose code is returned; blocks before a failing one are final, those after it untouched, and a failed read leaves its own untouched too; no page outside the touched blocks ever changes |
| MemoryCard.McCard.InjectBlocks | plugins/mcman/mcman_d.c:159-187 | The block loop keeps: blocks done are final, the rest are old |
| MemoryCard.McCard.InjectTurn | plugins/mcman/mcman_d.c:173-187 | One turn makes one block final |
| MemoryCard.McCard.InjectPages | plugins/mcman/mcman_d.c:109-127 | One block is rewritten with the pages injected and the others as they were |
| MemoryCard.McCard.AssembleBlock | plugins/mcman/mcman_d.c:113-121 | The shared buffer holds the old block with the new pages copied in, read only when the block is partial |
| MemoryCard.McCard.WriteBlock | plugins/mcman/mcman_d.c:62-91 | Erase, then each page with the checksums of its own quarters in its spare bytes; other blocks are untouched |
| MemoryCard.McCard.ReadBlock | plugins/mcman/mcman_d.c:94-106 | The buffer holds the block's pages, or the failing code is returned |
| MemoryCard.McCard.Pread | plugins/mcman/mcman_d.c:130-148 | A good read is the bytes of the pages, and lies on the card; otherwise the code of the first failing read |
| MemoryCard.McCard.constructor | plugins/mcman/mcman_d.c:198-231 | The shared buffer holds exactly one block |
| Nand.CountersTurn | plugins/mcman/mcman_d.c:176-186 | The counters of the block loop stay in step with the pages taken |
| Nand.TurnImage | plugins/mcman/mcman_d.c:109-127 | One turn's block image is that block of the spliced whole |
| Nand.IssueCodes | plugins/mcman/mcman_d.c:62-106 | A plan of flash operations succeeds if and only if none of them fails, and only the last one issued can have failed |
| CardWrite.SplicesIffMaskFits | plugins/mcman/mcman_d.c:162-187 | For every card content and data the write is the splice asked for if and only if the mask finds the offset inside the block |
| CardWrite.DiskAfter | plugins/mcman/mcman_d.c:151-190 | As bytes of the export, the write is a splice |
| CardWrite.InjectedIsSplice | plugins/mcman/mcman_d.c:162-187 | As pages of the card, the write is a splice |
| Masks.MaskIsModIffPow2 | plugins/mcman/mcman_d.c:166-167 | Masking with n - 1 is the remainder by n, for all operands, if and only if n is a power of two |
| FlashRules.EachBlockOnce | plugins/mcman/mcman_d.c:62-91 | A write erases each block of its range once, in order, programs each of their pages once with its final content, and touches no other |
| FlashRules.ReadsIffKept | plugins/mcman/mcman_d.c:113-118 | A write reads exactly the pages of those of its blocks that it does not replace as a whole |
| FlashRules.IssuedObeys | plugins/mcman/mcman_d.c:69-88 | Whatever fails, no page is programmed that was not erased since it was last programmed |
| Transport.Socket.RecvBlock | src/tcp.c:28-45 | However the bytes arrive, the caller gets exactly the next len bytes; or, when fewer come, those and the code that ended the stream |
| FilePlugin.FileDev.Pread | plugins/file/file.c:29-53 | All the bytes asked for, or -1 if and only if a call failed or the file ended; each system call takes up where the one before it left off, for all that is left, and the first that moves nothing is the last |
| FilePlugin.FileDev.Pwrite | plugins/file/file.c:55-71 | All the bytes written, or -1 if and only if a call failed, and then exactly the bytes that the calls moved; each call takes up where the one before it left off, for all that is left |
| FilePlugin.FileDev.Flush | plugins/file/file.c:74-84 | One system call, and -1 if and only if it failed |
| FilePlugin.WrittenReads | plugins/file/file.c:29-71 | What was written is what is read back, and the rest is as it was |
| FilePlugin.WrittenJoin | plugins/file/file.c:60-69 | Writing in two pieces that meet is writing at once |
| Tty.Driver.Write | plugins/tty/tty.c:38-59 | A write in two copies is `Step`: the last bytes of the data stand at their indices modulo 4096, bytes that are still recent are as they were, and the write count grows by all of it |
| Tty.Driver.Pread | plugins/tty/tty.c:99-150 | A read in two copies is `Step`: all the bytes asked for come from their indices modulo 4096, and only the reader's count changes, by all of them |
| Tty.PutRecent | plugins/tty/tty.c:38-59 | Writes keep the last 4096 bytes of the stream on the ring, each at its index modulo 4096 |
| Tty.GetsLatest | plugins/tty/tty.c:132-140 | Every byte read is the last one written at its place, however far the writer is ahead |
| Tty.ReadsExactlyIff | plugins/tty/tty.c:132-142 | A read is certain to return the next bytes if and only if the reader is at most 4096 behind |
| Tty.KeepsRecentIff | plugins/tty/tty.c:45-53 | A write that stays inside the array keeps the ring right if and only if it spans at most twice its size |
| Tty.RunIsFifo | plugins/tty/tty.c:38-150 | Over every interleaving the read count grows by all that was asked for, and timely reads together are exactly the stream up to it |
| Yuarel.FindAndTerminate | src/yuarel.c:42-52 | The string is cut at its first separator, which alone becomes zero, and the place after it is returned |
| Yuarel.Parse | src/yuarel.c:84-103 | The buffer holds the path, query and fragment of the URI where the result says, and only the separators changed |
| Query.ParseQuery | src/yuarel.c:146-176 | The parameters read as the limited split of the query, each part cut at its first '=', and only separators changed; -1 exactly for no query or an empty one |
| Query.SplitFrom | src/yuarel.c:155-175 | The same for a query that is there |
| Query.SplitTurn | src/yuarel.c:156-168 | One turn completes one parameter and starts the next |
| Query.SlotsRead | src/yuarel.c:155-175 | Parts laid out in a buffer read as the pairs they are |
| Split.SplitIff | src/yuarel.c:156-168 | The split is the only one whose join is the query and whose parts hold no delimiter, the last of the limit excepted |
| Split.PairsRoundTrip | src/yuarel.c:146-176 | Up to the limit, clean pairs joined by the delimiter come back unchanged |
| Split.QueryIsItsPairs | src/yuarel.c:146-176 | Any query is the join of its pairs |
| Split.UriRoundTrip | src/yuarel.c:84-103 | A URI written from its parts parses to those parts |
| Split.ParsedKeepsAll | src/yuarel.c:84-103 | Every URI is what precedes its path and then its parts |
| Split.ParsedIff | src/yuarel.c:84-103 | The parts of a URI are the only ones that, after a lead ending with its only '/', make up the URI and hold no separator where it would be found first |
| PathSplit.SplitPath | src/yuarel.c:116-144 | The places read as the first segments of the path, up to the limit, and only slashes changed; -1 exactly for no path or an empty one |
| PathSplit.SegmentsJoin | src/yuarel.c:105-115 | Slashes only separate, so doubled ones count as one |
| PathSplit.WordsRoundTrip | src/yuarel.c:116-144 | Words joined by slashes come back |
| PathSplit.SegmentsAreWords | src/yuarel.c:125-133 | Segments are nonempty and hold no slash |
| Uri.GetContext | src/contexts_uri.c:23-84 | The context is the first of the path's name whose plugin accepts exactly the pairs of the query; only then is its size updated; a context without a plugin is called through a null pointer; nothing past the end of the string changes |
| Uri.ResolvesIff | src/contexts_uri.c:58-83 | A URI leads to slot k if and only if k is the first context of the path's name, has a plugin, and its query hook, if any, answers the parameters with 0; then exactly that context gets the size the plugin gives for them, and otherwise none |
| Uri.UriResolvesIff | src/contexts_uri.c:37-83 | The same of the URI of a clean name, up to three clean parameters and any fragment: the hook is asked with exactly those |
| Uri.BareResolvesIff | src/contexts_uri.c:37-83 | And of a URI without a query or with an empty one: the hook is asked with no parameters and a count of -1 |
| Uri.NullPluginIff | src/contexts_uri.c:58-69 | The code calls through a null plugin if and only if the first context of the path's name has none |
| Uri.SessionNullPlugin | src/contexts_uri.c:58-69 | In a session whose registered contexts have plugins and names this happens if and only if the path is empty |
| Uri.EmptyPathIff | src/yuarel.c:84-103 | The path is empty if and only if nothing precedes the query and fragment, or nothing follows the only '/' that does |
| Uri.SlashIsNullPlugin | src/contexts_uri.c:58-69 | A '/' alone does it |
| Uri.Params | src/contexts_uri.c:47-51 | The plugin sees exactly the pairs of the query, or -1 and none |
| Uri.UriFindsName | src/contexts_uri.c:37-75 | The URI of a clean name, up to three clean parameters and any fragment finds what the name finds, with exactly those parameters |
| Uri.SameNames | src/contexts_uri.c:77-83 | A size update affects no lookup |
| Contexts.Pool.NewContext | src/contexts.c:56-75 | The first free slot joins the created ones at their end, or there is none if and only if all are taken |
| Contexts.Pool.Count | src/contexts.c:90-100 | The count is the number of created slots |
| Contexts.Pool.Lookup | src/contexts.c:112-128 | The result is the first created slot of that name |
| Contexts.SameUpToIff | src/contexts.c:121 | Comparing 32 characters compares a name that fits in full |
| Contexts.FirstMatchIff | src/contexts.c:119-127 | A lookup gives slot k if and only if k has the name and no earlier slot does |
| Contexts.LaterRegistrations | src/contexts.c:112-128 | Later registrations leave every lookup that resolves unchanged: the first wins |
| Contexts.Pool.PluginNew | src/plugins.c:17-47 | Registration appends exactly one context, also when its constructor fails: under the constructor's name and size, with its plugin if and only if the constructor returned 0, and with the plugin's long name if and only if that left no description; it writes through a null pointer if and only if a context is needed and the pool is full |
| Contexts.Pool.PluginInit | src/plugins.c:90-134 | The plugin takes the first free slot, and its context is appended if it exports without a handle; -1 changes nothing; a null pointer is written through if and only if such a plugin is taken into a full pool |
| Chargen.Generator.OnWritable | servers/chargen.c:19-41 | Whatever write takes, the pending piece ends at the line's end and all that was sent is a prefix of the 94 printing characters and a newline, over and over |
| Chargen.Continues | servers/chargen.c:31-37 | The next piece continues the repetition |
| Chargen.OneRepetition | servers/chargen.c:11-12 | The bytes of a given length are determined |

## Left out

- Sockets, the select loop, threads, remote calls, loading, audio, logging and the name tables of options and commands: foreign calls or plumbing; an index past the end of the command table is not modelled.
- A negative return of recv: it is lost in an unsigned comparison (servers/nbd/protocol.c:43), so the phases are modelled for streams that end with 0.
- Transmission.Server.TransmissionPhase: claims nothing about content once a send was incomplete, because the send flag then survives into the next request and its loops run on old registers; validity of all buffer accesses and the account of the plugin calls are still proved.
- Negotiation.Handshake.ProtocolHandshake: a send that returns -1 goes unnoticed by the code (unsigned comparison), so after one only the phases and the context are claimed.
- Exports.Export.Pwrite: leaves open what a request past the end, an empty write at page 0 of a card (whose end block underflows) and a call of a missing entry point do, beyond changing nothing outside the model.
- Exports.Export.Pread: leaves open the code of a request past the end.
- Resynchronisation after a rejected or failed WRITE: the payload is not drained, and what is then read as requests is whatever it holds.
- Two cards of different geometry: the block buffer and pagesPerBlock are shared globals; one card is modelled, with pages of 512 bytes when it is exported (the transmission phase's theorems need whole pages as blocks).
- The checksum of a page quarter: any function of its 128 bytes.
- A file write that returns 0 for a nonempty request, which regular files do not do.
- Uri.GetContext: says when a context without a plugin is called through a null pointer, not what that does: in the handshake the outcome is a parameter (`stray`).
- Contexts.Pool.PluginNew: says when a full pool makes it write through a null pointer, not what it returns then.
- Contexts.Pool.PluginInit: likewise; the pool and the slots are as said unless the null write changes them.
- Negotiation.Handshake.NextOption: the byte past the end of the buffer is modelled as one that nothing else uses; what it holds in memory is left open.
- Session.Client.Phases: models the state and the socket of the client and of its server as one. As the code stands, the handshake sets the server's state (servers/nbd/protocol-handshake.c:111, :125) while the session loop switches on the client's (servers/nbd/nbd.c:145), so it would start another handshake; both are meant to be the session's state.
- The handshake advertises the server's size and flags, not those of the context it resolved, and the transmission phase serves the server's export: the refactoring under way has not joined them, and the model keeps them apart in the same way.
- The default export of a session without negotiation is a parameter; its lookup is commented out in the code.
- Tty.Driver.Pread: waiting for enough data is the condition under which the read is enabled, not a loop over event flags; int64 counters are unbounded.
- Chargen: the event loop and activity time.
- The memory plugin, whose write copies into a local pointer, the echo and command plugins, the server registry and plugin configuration: nothing further to prove, or unfinished.
