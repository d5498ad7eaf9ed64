# payload-file-transmission, modelled in Dafny

The repository moves files between a satellite payload computer and the
on-board computer (CDH). It has two halves.

- **Pull model.** A command responder (`commands.c`) gets a one-byte command
  code plus a payload and answers with a status byte and an optional payload.
  It records a download in the files `download-filepath` (the path) and
  `download-fileoffset` (the next offset as a little-endian `uint64_t`). It
  records an upload in `upload-filemeta` (the expected SHA-256) and
  `upload-received` (the bytes so far). `file-commands.c` is an earlier
  draft of the same responder. In that draft startDownload answers with the
  file's length, packet count and digest.
- **Push model.** Stand-alone tools talk a stop-and-wait protocol over a
  serial link or a pair of pipes. There are two sender/receiver pairs:
  `send-file` with `receive-packets`, and `send-packets` with
  `recieve-packets`. `packetize` prepares a directory of packet files for
  `send-packets`.
  - The protocol's control bytes are TRANSFER_START, TRANSFER_PACKET,
    TRANSFER_NEXT, TRANSFER_AGAIN, TRANSFER_END and TRANSFER_ERROR.
  - The start frame is TRANSFER_START, then the file length and packet count
    as 8-byte little-endian integers, then the 32-byte digest.
  - A packet frame is TRANSFER_PACKET, then the data length as 2 bytes, then
    the CRC-32 as 4 bytes, then the data.
  - The receiver answers each packet frame with TRANSFER_NEXT (stored) or
    TRANSFER_AGAIN (checksum mismatch, send it again).

## How the model is built

- **Modules.** One module per source component:
  - `Commands`, with the class `Responder`, for `commands.c`;
  - `FileCommands`, with the class `DraftResponder`, for `file-commands.c`;
  - `SendFile`, `ReceivePackets`, `SendPackets`, `RecievePackets` and
    `Packetize` for the five tools;
  - shared modules: `Protocol` (the headers), `Bytes` (integers,
    little-endian, C strings), `Digest` (digest text,
    `lib/sha256_utils.c`), `Decimal` (`%lu`, `strtoul`, `getline`),
    `Chunking` (cutting a file into packets), `Codec` (the frames), `Link`
    (short reads and writes), `StopAndWait` (the sender loop), `Receiver`
    (the receiver loop) and `PacketFiles` (`<dir>/<i>.pkt`);
  - `CommandSessions` and `EndToEnd` state properties of several steps or
    programs run together.
- **Directories.** A working directory is a map from path to contents. A
  set `blocked` of paths stands for every `fopen`, `mkdir` or `rename` that
  fails, so every ERROR_FILE_IO branch and every "could not open" exit is
  reachable.
- **Replies.** A `Reply` is a status and a payload. The C record's `payloadLen` is the payload's length by construction, so it is not a separate field. `Reply.Fits` says that length fits the `uint16_t`.
- **Foreign code.** The SHA-256 and CRC-32 implementations are not part of
  this model. They are function parameters (`Hasher`, `Checksum`).
- **The link.** The bytes arriving from the other side are a sequence
  parameter. The replies a sender gets are the bytes the receiver wrote.
- **Exits.** Every `exit(-1)` or `return 1` of a tool is a `Fail(why)`
  outcome, with `why` naming the branch.
- **State-changing code.** Handlers and loops that change their state are
  methods proved equal to a specification function. The properties follow
  as lemmas about those functions.
- **Packet sizes.** 100000 bytes make three full packets and a last one of
  100000 - 3 * 32768 = 1696 bytes (`packetize/main.c:119`,
  `Chunking.HundredThousandBytes`).

## Model

| member | source | states |
|---|---|---|
| Protocol.PacketSizeFitsSixteenBits | lib/protocol.h:4-5 | PACKET_SIZE is 2^15, positive and within the 16-bit reply and frame length fields |
| Protocol.CommandCode | lib/protocol.h:7-13 | each command's code is in 1..7 |
| Protocol.CommandTableMatchesCodes | commands.c:339-348 | slot 0 of the handler table is empty and slot k holds the command whose code is k, and only that one |
| Protocol.StatusCode | lib/protocol.h:15-23 | status codes are 0..8, and 0 exactly for SUCCESS |
| Protocol.StatusOfCode | lib/protocol.h:15-23 | a byte names a status exactly when it is at most 8 |
| Protocol.StatusCodeRoundTrip | lib/protocol.h:15-23 | a status byte decodes to its status, so no two statuses share a byte |
| Protocol.EmptyReply | lib/protocol.h:31 | EMPTY_REPLY(s) has status s and length 0, and fits the 16-bit payloadLen |
| Protocol.CommandTable | commands.c:339-348 | slot 0 is empty, and the command in slot k has code k |
| Protocol.ControlByte | include/protocol.h:4-11 | control bytes are 1..6 |
| Protocol.ControlOfByte | include/protocol.h:4-11 | a byte is a control byte exactly when it is in 1..6 |
| Protocol.ControlByteRoundTrip | include/protocol.h:4-11 | each control byte decodes to its tag, none is 0, and no two are equal |
| Bytes.LittleEndian | send-file/main.c:75-81 | memcpy of an integer writes exactly `width` bytes |
| Bytes.FromLittleEndian | receive-packets/main.c:65-66 | reading k bytes as an integer gives a value below 256^k |
| Bytes.DecodeEncode | receive-packets/main.c:65-66 | an integer that fits, written and read back, is unchanged |
| Bytes.EncodeDecode | recieve-packets/main.c:63-64 | bytes read as an integer and written back are the same bytes |
| Bytes.LittleEndianInjective | send-file/main.c:75-81 | different integers that fit have different encodings |
| Bytes.Uint64RoundTrip | recieve-packets/main.c:63-64 | eight bytes read as a uint64_t and written back are the same eight bytes |
| Bytes.CString | commands.c:60-63 | a path taken from a payload is the bytes before the first NUL: a prefix, NUL-free, stopped by a NUL |
| Commands.PathOf | commands.c:60-63 | the path is the payload's bytes, as characters, up to the first NUL or the end, and holds no NUL |
| Bytes.CStringOfCString | commands.c:104 | the path written with fputs and read back is the same C string |
| Bytes.AsTextInjective | commands.c:190 | paths from different bytes are different paths |
| Bytes.AsTextOfTextBytes | packetize/main.c:99 | text written with fprintf reads back as the same text |
| Bytes.Overwrite | file-commands.c:117-119 | memcpy into a buffer changes exactly the bytes copied to |
| Bytes.CopyWithin | commands.c:118-120 | a copy is defined exactly when it stays inside the destination |
| Bytes.Copy | file-commands.c:117-119 | the array afterwards is Overwrite of its old contents |
| Digest.SameDigestIsEquality | commands.c:319-320 | sha256cmp holds exactly for equal digests |
| Digest.HexDigit | lib/sha256_utils.c:19-21 | `%02x` digits are lower-case hex |
| Digest.HexText | lib/sha256_utils.c:17-22 | the text is two characters per byte |
| Digest.HexTextAt | lib/sha256_utils.c:19-21 | characters 2i and 2i+1 are byte i's high and low nibble |
| Digest.HexTextAlphabet | lib/sha256_utils.c:17-22 | every character is lower-case hex |
| Digest.HexDigitInjective | lib/sha256_utils.c:20 | different nibbles print as different digits |
| Digest.HexTextInjective | packetize/main.c:57-69 | different digests name different packet directories |
| Digest.Sha256Str | lib/sha256_utils.c:17-22 | the 65-char buffer holds the digest's hex text and a NUL |
| Digest.HexValue | send-packets/main.c:46 | a hex digit of either case has a value below 16, and only those characters do |
| Digest.ParseHexPair | send-packets/main.c:46-47 | two hex digits give 16 * high + low; a pair whose second character is not a hex digit, or whose first is neither a hex digit nor a blank or sign, is rejected |
| Digest.ParseHexPairOfHexPair | send-packets/main.c:38-51 | strtoul base 16 of a printed byte gives back the byte |
| Digest.ParseHexPairLenient | send-packets/main.c:46-47 | strtoul accepts a leading blank or sign, either case, and rejects "0x" and non-hex digits |
| Digest.ParseShaArg | send-packets/main.c:33-51 | accepts exactly 64 characters whose pairs all parse, and each digest byte is its pair's value |
| Digest.HexTextParsesBack | send-packets/main.c:38-51 | a digest printed by sha256Str parses back to itself |
| Decimal.DigitChar | packetize/main.c:99 | a digit prints as '0'..'9' |
| Decimal.DigitValue | send-packets/main.c:94 | a digit's value is below 10 and prints as that digit |
| Decimal.DecimalText | packetize/main.c:99 | `%lu` prints digits only, with no leading zero |
| Decimal.DigitsValueOfDecimal | send-packets/main.c:94 | reading the printed digits gives the number back |
| Decimal.LeadingDigits | send-packets/main.c:94 | strtoul reads the longest digit prefix |
| Decimal.LeadingDigitsOfDigits | send-packets/main.c:94 | digits followed by a non-digit are read exactly |
| Decimal.SkipSpace | send-packets/main.c:94 | strtoul skips a blank prefix up to a non-blank |
| Decimal.Strtoul10 | send-packets/main.c:101 | strtoul base 10 never exceeds ULONG_MAX (it saturates there) |
| Decimal.Strtoul10OfDecimalLine | send-packets/main.c:89-101 | strtoul of a `%lu\n` line gives the number |
| Decimal.GetLine | send-packets/main.c:89-93 | getline fails exactly at end of file; otherwise its line plus the rest is the text, and only the last char can be '\n' |
| Decimal.GetLineOfLine | send-packets/main.c:96-100 | getline on "body\nrest" returns "body\n" and leaves rest |
| Decimal.ReadPacketMeta | send-packets/main.c:83-109 | the parsed size and count are non-zero and at most ULONG_MAX, and an empty file fails |
| Decimal.PacketMetaRoundTrip | send-packets/main.c:83-109 | metadata written as `%lu\n%lu\n` parses back to both values, or fails on a zero field |
| Decimal.ReceivingMetaLayout | receive-packets/main.c:85 | receiving.meta is the digest text, '\n', then the length and count lines |
| Chunking.PacketCountAtMostLength | packetize/main.c:83 | there are never more packets than bytes, so the count fits wherever the length does |
| Chunking.NextPacketOffset | packetize/main.c:119-124 | packet i + 1 starts where packet i ends, and the last packet ends at the end of the file |
| Chunking.PacketOffset | packetize/main.c:119-124 | packet i starts at a multiple of PACKET_SIZE, namely i * PACKET_SIZE |
| Chunking.PacketCountIsCeiling | packetize/main.c:83 | numPackets is the ceiling of len / PACKET_SIZE, and 0 only for the empty file |
| Chunking.PacketLen | packetize/main.c:119 | every packet is 1..PACKET_SIZE bytes and inside the file; all but the last are full, and the last ends at the file's end |
| Chunking.Packet | packetize/main.c:124 | packet i has packet i's length |
| Chunking.Packets | packetize/main.c:107 | there are numPackets packets |
| Chunking.PacketsPrefix | packetize/main.c:107-131 | the first k packets together are the file up to packet k's offset |
| Chunking.PacketsReassemble | packetize/main.c:107-131 | the packets put together are the file, and their lengths add up to its length |
| Chunking.PacketSizes | packetize/main.c:119 | every packet is non-empty and at most PACKET_SIZE, and all but the last are full |
| Chunking.HundredThousandBytes | packetize/main.c:83-119 | 100000 bytes make 4 packets: three of 32768 bytes and one of 1696 |
| Codec.StartFrame | send-file/main.c:64-84 | 49 bytes: TRANSFER_START, size, count (8 bytes each, little-endian), digest |
| Codec.DecodeStartBody | receive-packets/main.c:61-67 | the length and count re-encode to bytes 0..8 and 8..16, and the digest is bytes 16..48 |
| Codec.StartFrameRoundTrip | receive-packets/main.c:61-67 | readHeader recovers the size, count and digest that writeHeader wrote |
| Codec.StartBodyRoundTrip | recieve-packets/main.c:52-67 | any 48 header bytes, decoded and re-encoded, are the same bytes after TRANSFER_START |
| Codec.PacketFrame | send-file/main.c:86-114 | TRANSFER_PACKET, the length mod 2^16, the CRC, then the data |
| Codec.PacketFrames | send-packets/main.c:168-191 | frame j is packet j with its own CRC |
| Codec.DecodePacketHeader | receive-packets/main.c:106-113 | the length re-encodes to header bytes 0..2 and the CRC to bytes 2..6 |
| Codec.PacketHeaderRoundTrip | receive-packets/main.c:106-113 | the 6 header bytes read back as the length and CRC written |
| Codec.ReadStartFrame | receive-packets/main.c:50-67 | fails with NotStart exactly when the first byte is missing or not TRANSFER_START; on success 49 bytes are consumed |
| Codec.ReadStartFrameOfStartFrame | receive-packets/main.c:56-67 | a start frame reads back as its header and leaves the rest |
| Codec.ReadPacketFrame | receive-packets/main.c:89-122 | TRANSFER_END fails as PrematureEnd and any other non-packet byte as NotPacket; on success the data is the declared length taken from after the header |
| Codec.ReadPacketFrameOfPacketFrame | receive-packets/main.c:98-122 | a packet frame reads back as its length, CRC and data and leaves the rest |
| Link.ReadAllOrDie | receive-packets/main.c:24-36 | the buffer is the next bytes of the input; it is complete exactly on success, fails only on -1 or a closed link, and succeeds whenever enough is available |
| Link.WriteAllOrDie | send-file/main.c:49-62 | the link carries a prefix of the data, all of it exactly on success, and it fails only on -1 or a closed link |
| Link.SplitHeaderWrite | send-file/main.c:54-61 | a 49-byte header written in pieces of 10 and 39 arrives intact |
| Link.RestartWrites | send-packets/main.c:136-144 | the restart loop succeeds only once the counts it was given add up to the data's length, and otherwise fails as closed or as an error |
| Link.RestartWriteAsWritten | send-packets/main.c:136-144 | the header loop as written, equal to RestartWrites |
| Link.RestartWritesCorruptsSplitHeader | send-packets/main.c:137-138 | for fewer than 256 packets, a header written in pieces of 10 and 39 arrives as bytes 0..9 then 0..38, which differ from the header at byte 10 |
| Link.RereadsAtStart | recieve-packets/main.c:124-134 | the buffer keeps its size under the restarting read loop |
| Link.RereadAsWritten | recieve-packets/main.c:124-134 | the packet-header loop as written, equal to RereadsAtStart |
| Link.RereadsCorruptSplitHeader | recieve-packets/main.c:127-128 | a 6-byte header arriving 3 + 3 ends up as its bytes 3..5 followed by stale bytes, which is not the header whenever its bytes 0 and 3 differ |
| Link.SplitHeaderRead | receive-packets/main.c:24-36 | a 6-byte header arriving 3 + 3 is read intact |
| StopAndWait.ReadResponse | send-file/main.c:131-147 | NEXT advances, AGAIN repeats; END, ERROR and other bytes stop with their own reasons, and 0 is a null response for send-packets |
| StopAndWait.OnlyNextAndAgainContinue | send-packets/main.c:217-231 | only TRANSFER_NEXT and TRANSFER_AGAIN keep the loop going |
| StopAndWait.NoReply | send-packets/main.c:206-215 | for send-packets a missing reply byte counts as the null reply |
| StopAndWait.SendStep | send-file/main.c:243-245 | frame i goes out, then the reply decides between stopping, frame i again and frame i + 1 |
| StopAndWait.SendFrom | send-file/main.c:236-246 | from frame i on, frame i goes out first, and the loop ends well only after at least one reply per remaining frame |
| StopAndWait.Run | send-file/main.c:236-246 | the loop's link bytes and outcome are SendFrom's |
| StopAndWait.SendAllNext | send-file/main.c:236-246 | with all replies TRANSFER_NEXT each remaining frame goes out once, in order, and the loop succeeds |
| StopAndWait.RetransmitUntilNext | send-packets/main.c:218-221 | k AGAIN replies then NEXT send frame i k + 1 times, then go on at i + 1 |
| SendFile.Frames | send-file/main.c:236-243 | one frame per packet |
| SendFile.Preamble | send-file/main.c:219-234 | the start frame only at packet 0, with the file's length, count and digest; nothing when resuming |
| SendFile.Send | send-file/main.c:203-246 | a start index at or past the packet count (an empty file included) writes nothing and fails; otherwise preamble plus loop |
| SendFile.SendPackets | send-file/main.c:236-246 | the packet loop from `start` equals SendFrom |
| SendFile.FramesCarryFile | send-file/main.c:237-238 | frame j carries packet j, and the packets put together are the file |
| SendFile.SendWholeFile | send-file/main.c:220-246 | with all replies TRANSFER_NEXT the whole file goes out, every frame once |
| SendPackets.ShaOfArg | send-packets/main.c:38-51 | digest byte i is the value of argument characters 2i, 2i+1 |
| SendPackets.LoadPackets | send-packets/main.c:146-191 | loads at most the n packet files, all of them exactly on success, each at most UINT16_MAX bytes, and fails only as missing or too long |
| SendPackets.LoadPacketsContents | send-packets/main.c:154-183 | loaded packet k is the contents of `<dir>/<k>.pkt` |
| SendPackets.LoadPacketsStop | send-packets/main.c:154-171 | the first unloaded packet file is missing (MissingPacketFile) or too long (PacketTooLong) |
| SendPackets.ShaArgOfHexText | send-packets/main.c:33-57 | the hex text of a digest is a valid argument denoting that digest |
| SendPackets.LoadPacketsOfStore | send-packets/main.c:146-191 | a directory holding n short packets loads as exactly those packets |
| SendPackets.Transfer | send-packets/main.c:123-240 | succeeds exactly when all packets load and the loop succeeds, and then writes the start frame, the loop's bytes and TRANSFER_END |
| SendPackets.Send | send-packets/main.c:26-240 | a bad argument, a missing metadata file and bad metadata fail before writing anything; otherwise the run is Transfer's |
| Packetize.PacketDir | packetize/main.c:66-69 | the packet directory is `../packet-test/` followed by 64 lower-case hex characters |
| Packetize.PacketMeta | packetize/main.c:99 | the metadata file's text is `len\nnumPackets\n` |
| Packetize.FirstBlocked | packetize/main.c:112-117 | the first packet file from i on that cannot be opened, or n when none |
| Packetize.Packetize | packetize/main.c:49-131 | a blocked directory or metadata file fails with nothing written; otherwise the metadata plus the packets before the first blocked file, success exactly when there is none |
| Packetize.WritePackets | packetize/main.c:107-131 | the loop stores packet i at `<dir>/<i>.pkt` up to the first blocked file, success exactly when none is blocked |
| PacketFiles.PacketPath | packetize/main.c:110 | a packet path starts with its directory |
| PacketFiles.PacketPathInjective | packetize/main.c:108-110 | two packet paths in one directory are equal exactly for equal indices |
| PacketFiles.WrittenContents | receive-packets/main.c:216-229 | the stored files are exactly the packets, each at its own path |
| Receiver.RepliesAreNextOrAgain | receive-packets/main.c:202-211 | the receiver only ever replies TRANSFER_NEXT or TRANSFER_AGAIN |
| Receiver.ReceptionCounts | receive-packets/main.c:202-232 | every TRANSFER_NEXT stands for a stored packet, except one before a failed file open |
| Receiver.ReceptionBounds | receive-packets/main.c:183-233 | at most packets i..n-1 are stored, all of them on success, and what is left unread is a suffix of the input |
| Receiver.ReceptionStore | receive-packets/main.c:216-229 | the directory afterwards is the old one plus each stored packet at its path |
| Receiver.ReceiveFrom | receive-packets/main.c:183-233 | each reply answers a frame of at least 7 bytes read from the link, so there are at most a seventh as many replies as bytes |
| Receiver.ReceiveLoop | receive-packets/main.c:183-233 | the loop's replies, files and outcome are ReceiveFrom's, and its store is the old one plus the packets written |
| Receiver.ReceiveGood | receive-packets/main.c:211-232 | an intact frame is answered NEXT, stored as packet i, and the loop goes on at i + 1 |
| Receiver.ReceiveCorrupted | receive-packets/main.c:202-209 | a frame with a wrong CRC is answered AGAIN, not stored, and the loop stays at packet i |
| Receiver.ReceiveIntact | receive-packets/main.c:183-233 | undamaged frames of the remaining packets are all answered NEXT and stored unchanged, and the rest of the input is left |
| ReceivePackets.ReceivingMeta | receive-packets/main.c:70-87 | receiving.meta holds the digest text, the length and the count |
| ReceivePackets.Receive | receive-packets/main.c:176-233 | a bad start frame or a blocked receiving.meta fails with nothing stored; otherwise the loop from `--start` runs over the packet count |
| RecievePackets.PacketDir | recieve-packets/main.c:78-80 | the packet directory is `../packet-test2/` followed by 64 lower-case hex characters |
| RecievePackets.PacketMeta | recieve-packets/main.c:101 | the metadata text is `size\ncount\n` |
| RecievePackets.ReadEnd | recieve-packets/main.c:204-214 | succeeds exactly when the next byte is TRANSFER_END |
| RecievePackets.Prepare | recieve-packets/main.c:78-102 | mkdir and the metadata file succeed exactly when neither is blocked, and leave the metadata in place |
| RecievePackets.Recieve | recieve-packets/main.c:38-214 | a bad start frame or a failed preparation stores nothing; otherwise the loop runs from 0, then TRANSFER_END is required |
| EndToEnd.PacketsFit | send-packets/main.c:168-171 | every packet of a file is within UINT16_MAX, so it is never refused as too long |
| EndToEnd.StoredPackets | receive-packets/main.c:216-229 | received packet k is at `<dir>/<k>.pkt` |
| EndToEnd.FileTransfer | send-file/main.c:220-246 | send-file against receive-packets: every reply is NEXT, each frame goes once, the header is read back, the stored packets put together are the file |
| EndToEnd.PacketizedMeta | packetize/main.c:99 | packetize's metadata reads back in send-packets as the file's length and count |
| EndToEnd.PacketizedDirectory | send-packets/main.c:53-57 | packetize's directory is the one send-packets derives from the digest argument, and its packet files load as the file's packets |
| EndToEnd.PacketsTransfer | send-packets/main.c:146-240 | send-packets against recieve-packets over packetize's output: every reply is NEXT, TRANSFER_END closes, the receiver stores the same packets and the same metadata |
| Commands.StartDownloadCopyAsWritten | commands.c:117-120 | the digest copy at offset 32 of a 32-byte payload lies outside it; at offset 0 it fills the payload with the digest |
| Commands.StartDownloadStep | commands.c:51-123 | ALREADY_DOWNLOADING exactly when a record exists; SUCCESS exactly when the path opens and both records can be created, and then the reply is the digest and the records hold the path and offset 0; ALREADY_DOWNLOADING, a path that does not open and a path record that cannot be created change nothing; only when the offset record cannot be created is FILE_IO returned with an empty path record left behind |
| Commands.StartUploadStep | commands.c:126-156 | ALREADY_UPLOADING exactly when a record exists; SUCCESS exactly when both records can be created, and then they are the 32-byte digest and an empty file; ALREADY_UPLOADING and a digest record that cannot be created change nothing; only when the received file cannot be created is FILE_IO returned with an empty digest record left behind |
| Commands.ReadNextPacket | commands.c:159-222 | NOT_DOWNLOADING exactly when a record is missing; with both present, FILE_IO exactly when a record or the recorded file does not open, FILE_DOESNT_EXIST exactly when the recorded path is gone, DOWNLOAD_OVER exactly when the length is at most the offset, and a packet exactly when the offset is below the length; the packet is the min(PACKET_SIZE, len - offset) bytes at the offset |
| Commands.RequestPacketStep | commands.c:159-234 | errors change nothing; a packet is replied and the first 8 bytes of the offset record are overwritten with the offset past it |
| Commands.RequestPacketStepAsWritten | commands.c:224-228 | same reply as the intended step, but the directory never changes |
| Commands.SendPacketStep | commands.c:237-258 | NOT_UPLOADING exactly when a record is missing; SUCCESS exactly when the received file opens, and then the payload is appended; errors change nothing |
| Commands.CancelUploadStep | commands.c:261-268 | SUCCESS; both upload records are gone, nothing else changes |
| Commands.CancelDownloadStep | commands.c:271-278 | SUCCESS; both download records are gone, nothing else changes |
| Commands.Rename | commands.c:328 | a blocked target or target == source changes nothing; otherwise the target takes the contents, the source is gone, the rest is unchanged |
| Commands.FinalizeUploadStep | commands.c:281-337 | NOT_UPLOADING exactly when a record is missing, SHASUM_MISMATCH exactly when the digest differs, errors change nothing; on success the file is renamed to the path and the digest record removed |
| Commands.Handle | commands.c:339-348 | every handler's reply fits in PACKET_SIZE bytes and so in the 16-bit payloadLen of the Reply record (lib/protocol.h:27), and only a SUCCESS reply has a payload |
| Commands.RunCommandStep | commands.c:350-356 | the reply of the selected handler fits in PACKET_SIZE bytes and in its 16-bit payloadLen, and carries a payload only with SUCCESS |
| Commands.RunCommandDispatch | commands.c:350-356 | the command byte selects the handler of that code, which sees the rest of the buffer |
| Commands.Responder.StartDownload | commands.c:51-123 | the handler updates the directory and replies as StartDownloadStep |
| Commands.Responder.StartUpload | commands.c:126-156 | as StartUploadStep |
| Commands.Responder.RequestPacket | commands.c:159-234 | as RequestPacketStep |
| Commands.Responder.SendPacket | commands.c:237-258 | as SendPacketStep |
| Commands.Responder.CancelUpload | commands.c:261-268 | as CancelUploadStep |
| Commands.Responder.CancelDownload | commands.c:271-278 | as CancelDownloadStep |
| Commands.Responder.FinalizeUpload | commands.c:281-337 | as FinalizeUploadStep |
| Commands.Responder.RunCommand | commands.c:350-356 | as the handler the table selects |
| CommandSessions.OffsetReadsBack | commands.c:184-185 | the recorded offset reads back as the offset |
| CommandSessions.ReadPacketAt | commands.c:203-222 | at packet j's offset the next packet read is packet j |
| CommandSessions.RequestPacketAt | commands.c:211-228 | a request at packet j's offset replies packet j and records the offset after it |
| CommandSessions.PacketRepliesAt | commands.c:211-222 | reply i of a download from packet j carries packet j + i |
| CommandSessions.DownloadFrom | commands.c:159-234 | by induction on the packets left, the requests from packet j return packets j, j + 1, ... in order and leave the offset at the file's length |
| CommandSessions.DownloadOver | commands.c:203-209 | at the file's length a request answers DOWNLOAD_OVER and changes nothing |
| CommandSessions.StartedDownloadAt | commands.c:102-106 | a successful startDownload records the requested file at offset 0 and leaves it unchanged |
| CommandSessions.DownloadAll | commands.c:159-234 | from offset 0 the requests return every packet and leave the download at the file's length |
| CommandSessions.PacketRepliesCarryPackets | commands.c:211-222 | the download's replies carry the file's packets in order, and the payloads together are the file |
| CommandSessions.DownloadSession | commands.c:51-234 | after startDownload, n requests return the n packets, which put together are the file, and the next one answers DOWNLOAD_OVER |
| CommandSessions.RequestPacketAsWrittenRepeats | commands.c:224-228 | as written, the first request leaves the offset at 0; with the intended update the second request returns packet 1 |
| CommandSessions.SendsAppend | commands.c:246-253 | during an upload each sendPacket succeeds, and the received file grows by the packets put together |
| CommandSessions.UploadSession | commands.c:126-337 | startUpload, sendPacket for each packet, then finalizeUpload: a matching digest puts the file at the path and removes both records; a mismatch answers SHASUM_MISMATCH and changes nothing |
| CommandSessions.FinalizeReceived | commands.c:319-334 | finalizing a fresh upload leaves the old directory plus the file at the path |
| CommandSessions.FinalizeOnce | commands.c:284-285 | after a successful finalizeUpload the next one answers NOT_UPLOADING |
| CommandSessions.CancelUploadEnds | commands.c:261-268 | cancelUpload is idempotent, and afterwards sendPacket and finalizeUpload answer NOT_UPLOADING |
| CommandSessions.CancelDownloadEnds | commands.c:271-278 | cancelDownload is idempotent, and afterwards requestPacket answers NOT_DOWNLOADING |
| FileCommands.StartDownloadStep | file-commands.c:48-122 | FILE_IO when the path does not open; ALREADY_DOWNLOADING exactly when it opens and a record exists; on SUCCESS the 48-byte reply decodes as the length, count and digest, and the records hold the path and packet 0; every reply fits its 16-bit payloadLen; ALREADY_DOWNLOADING, a path that does not open and a path record that cannot be created change nothing, and only a packet-number record that cannot be created leaves an empty path record |
| FileCommands.DownloadHeader | file-commands.c:109-119 | the digest is the file's, and a length that fits in 64 bits is stored with its ceiling packet count, untruncated |
| FileCommands.DownloadHeaderDescribesFile | file-commands.c:104-119 | the reply's fields are the file's length, its ceiling packet count and its digest |
| FileCommands.StartedDownloadRecords | file-commands.c:97-99 | after success the records read back as the requested path and packet 0 |
| FileCommands.StartDownloadAgain | file-commands.c:81-84 | a second startDownload answers ALREADY_DOWNLOADING and changes nothing |
| FileCommands.DraftResponder.StartDownload | file-commands.c:48-122 | the handler, with its three copies into a 48-byte buffer, equals StartDownloadStep |
| FileCommands.DraftResponder.StartUpload | file-commands.c:124-131 | answers SUCCESS with no payload |
| FileCommands.DraftResponder.FileCommand | file-commands.c:133-164 | codes 1 and 2 run startDownload and startUpload on the rest of the buffer |

## Left out

- Reads and writes on the serial device or the pipes are modelled in `Link` and as byte-sequence parameters. Opening the device, `getopt_long`, `printf` and `perror` messages, and exit codes are not modelled; each `exit`/`return 1` is a `Fail` value.
- SHA-256 (`calculateSHA256`, `sha256calc`, `lib/sha256_utils.c:8-15`) and CRC-32 are function parameters. Their internals are not part of this model.
- `stitch` is not part of this model.
- Memory and handle bookkeeping (`malloc`/`free`, the double `fclose` in `readFile` and `startDownload`) is left out. It has no visible effect on replies or files in the model.
- `fileLength`/`readFile` exit on an `fseek` or short-`fread` failure. The model reads whole files as map values.
- `ftell` returns `long`: files are assumed shorter than 2^63 bytes.
- `fwrite`/`fputs` results are ignored in the source, so every write in the model stores its whole buffer. Packetize's and recieve-packets' checks for a short `fwrite` are therefore never taken.
- `PATH_MAX` and the 1024-byte path buffers: paths are unbounded strings, so no truncation is modelled.
- Directories are implicit: `mkdir` and the `stat`/`S_ISDIR` check of send-packets are modelled as a blocked path or as the presence of the metadata file.
- The progress file `next-packet-out` of send-file (`writeProgress`/`eraseProgress`) is left out, since it is never read back.
- `Commands.ReadNextPacket`: commands.c:180-190 reads `pathlen` bytes into an unterminated buffer and passes it to `access`. The model takes the bytes before the first NUL (`CString`), the evidently intended reading.
- `Commands.RunCommandStep`: commands.c:352 indexes the table without a bound or NULL check. The model requires a code in 1..7 and at least the command byte.
- `FileCommands.DraftResponder.FileCommand`: file-commands.c:160 calls through an uninitialised function variable for codes other than 1 and 2. The model requires code 1 or 2. The method returns the handler's reply, which file-commands.c:160 discards.
- `Commands.StartUploadStep`: reads 32 payload bytes without a length check (commands.c:150), so the model requires at least 32.
- `Commands.RequestPacketStep` and `Commands.FinalizeUploadStep` require the offset record to hold at least 8 bytes and the digest record at least 32 (`DownloadReadable`, `UploadReadable`). A shorter record would be read as indeterminate bytes, which this model does not give a meaning.
- Senders' frames are computed up front (`SendFile.Frames`, `SendPackets.LoadPackets`). The files do not change during a run, so the bytes written are the same.
- `strtoul` with base 0 for `--start` is not modelled: the start index is a number parameter. Base 10 and base 16 are modelled as the source uses them.
- When the link runs out of bytes, a C reader blocks or sees a zero-byte read. Inside a frame, the C loops (`readAllOrDie`, receive-packets/main.c:28-35, and recieve-packets/main.c:54-61, 127-134, 143-150) add 0 to the bytes read and read again, forever. The model ends that endless loop with a `LinkClosed` failure instead. At a frame boundary the model takes one zero-byte read, and the command byte is left as it was set before the read: 0 for the start frame (`NotStart`) and for a packet frame (`NotPacket`), TRANSFER_START, the last command read, for recieve-packets' TRANSFER_END check, and 0 for send-packets' reply (a null reply).
- `Codec.ReadStartFrame`: receive-packets/main.c:40 leaves `command` uninitialised, so after a zero-byte read its value is indeterminate. The model takes it to be 0 (`NotStart`), as recieve-packets/main.c:38 sets it.
- `StopAndWait.NoReply`: send-file's `readResponse` leaves `response` uninitialised (send-file/main.c:122-131), so after a zero-byte read the byte it switches on is indeterminate. The model ends send-file's run with `LinkClosed` there.

## Findings

| source | as written | input that shows it | evidently intended | confidence | as-written member | corrected member |
|---|---|---|---|---|---|---|
| commands.c:228 | the new offset is written to `downFile`, the file being downloaded, which is open for reading only, so `download-fileoffset` keeps its old value | startDownload of a file longer than PACKET_SIZE, then two requestPacket commands: both return the first packet | write the offset to `downOffset` (the comment at commands.c:224 says "Update the offset file") | not executed | Commands.RequestPacketStepAsWritten | CommandSessions.DownloadSession |
| commands.c:120 | the digest is copied to offset 32 of the 32-byte reply payload, wholly past its end, and the payload itself is left uninitialised | any successful startDownload | copy the digest to offset 0 | not executed | Commands.StartDownloadCopyAsWritten | Commands.StartDownloadStep |
| send-packets/main.c:138 | after a short write the header loop writes from `header` again, not from `header + written` (so does the packet loop at line 196) | a 49-byte header that the kernel accepts as 10 + 39 bytes goes out as bytes 0..9, then 0..38 | write from `header + written`, as send-file's writeAllOrDie does | not executed | Link.RestartWritesCorruptsSplitHeader | Link.SplitHeaderWrite |
| recieve-packets/main.c:128 | after a short read the header loop reads into `pktHeader` again, not `pktHeader + pktAmtRead` (so does the data loop at line 144) | a 6-byte packet header that arrives as 3 + 3 bytes ends up as the last 3 bytes then stale bytes | read into `pktHeader + pktAmtRead`, as receive-packets' readAllOrDie does | not executed | Link.RereadsCorruptSplitHeader | Link.SplitHeaderRead |
