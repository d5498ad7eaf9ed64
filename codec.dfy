/**
 * The push protocol's frames: the 49-byte start frame (tag, 8-byte file
 * length, 8-byte packet count, 32-byte digest) and the 7+N-byte packet frame
 * (tag, 2-byte length, 4-byte CRC-32, data), integers little-endian.
 * The encoders are the buffer fills of writeHeader, writePacket and
 * send-packets; the decoders are the fixed-offset reads of readHeader and
 * readPacketHeader (and their inline copies in recieve-packets), here reading
 * from the bytes the link delivers.
 */
module Codec {
  import opened Bytes
  import opened Protocol
  import opened Digest

  /** Why a push tool stops (each is an `exit`/`return 1` of the source). */
  datatype Exit =
    | LinkClosed          // the link delivered no more bytes
    | LinkError           // a read or write on the link returned -1
    | NotStart            // first byte is not TRANSFER_START
    | PrematureEnd        // TRANSFER_END where a packet was expected
    | NotPacket           // any other byte where a packet was expected
    | NotEnd              // the byte after the last packet is not TRANSFER_END
    | NullResponse        // a zero reply byte (send-packets)
    | EndResponse         // TRANSFER_END as a reply to a packet
    | ErrorResponse       // TRANSFER_ERROR as a reply to a packet
    | ErroneousResponse   // any other reply byte
    | BadStartPacket      // the resume index is not below the packet count
    | BadMetadata         // a metadata line is missing or a field is zero
    | MissingPacketFile   // a packet file to send does not exist
    | PacketTooLong       // a packet file longer than UINT16_MAX
    | FileError           // a file could not be opened or a directory created
    | BadDigestArgument   // the digest argument is not 64 hex digits

  datatype Result<T> = Ok(value: T) | Fail(why: Exit)

  datatype StartHeader = StartHeader(fileSize: uint64, numPackets: uint64, shaSum: Digest)

  /** writeHeader: TRANSFER_START, the file length, the packet count and the digest. */
  function StartFrame(h: StartHeader): (f: seq<uint8>)
    ensures |f| == 49 && f[0] == START
    ensures f[1..9] == LittleEndian(h.fileSize, 8)
    ensures f[9..17] == LittleEndian(h.numPackets, 8)
    ensures f[17..49] == h.shaSum
  {
    [START] + LittleEndian(h.fileSize, 8) + LittleEndian(h.numPackets, 8) + h.shaSum
  }

  /** readHeader: the 48 bytes after the tag are the length (0..8), the packet
      count (8..16) and the digest (16..48). */
  function DecodeStartBody(b: seq<uint8>): (h: StartHeader)
    requires |b| == 48
    ensures LittleEndian(h.fileSize, 8) == b[0..8] && LittleEndian(h.numPackets, 8) == b[8..16]
    ensures h.shaSum == b[16..48]
  {
    Pow256Eight();
    Uint64RoundTrip(b[0..8]);
    Uint64RoundTrip(b[8..16]);
    StartHeader(FromLittleEndian(b[0..8]), FromLittleEndian(b[8..16]), b[16..48])
  }

  /** Decoding an encoded start frame gives back its three fields ... */
  lemma StartFrameRoundTrip(h: StartHeader)
    ensures DecodeStartBody(StartFrame(h)[1..]) == h
  {
    var f := StartFrame(h);
    Pow256Eight();
    assert f[1..][0..8] == f[1..9];
    assert f[1..][8..16] == f[9..17];
    assert f[1..][16..48] == f[17..49];
    DecodeEncode(h.fileSize, 8);
    DecodeEncode(h.numPackets, 8);
  }

  /** ... and every 48-byte body is the body of the start frame of its decoding. */
  lemma StartBodyRoundTrip(b: seq<uint8>)
    requires |b| == 48
    ensures StartFrame(DecodeStartBody(b)) == [START] + b
  {
    var h := DecodeStartBody(b);
    Uint64RoundTrip(b[0..8]);
    Uint64RoundTrip(b[8..16]);
    var f := StartFrame(h);
    assert f[1..9] == b[0..8] && f[9..17] == b[8..16] && f[17..49] == b[16..48];
    SplitThree(f[1..], 8, 16);
    SplitThree(b, 8, 16);
    assert f[1..][0..8] == f[1..9] && f[1..][8..16] == f[9..17] && f[1..][16..48] == f[17..49];
    assert f == [f[0]] + f[1..];
  }

  /** writePacket: TRANSFER_PACKET, the length truncated to 16 bits, the
      checksum, and the data. */
  function PacketFrame(data: seq<uint8>, crcSum: uint32): (f: seq<uint8>)
    ensures |f| == 7 + |data| && f[0] == PACKET
    ensures f[1..3] == LittleEndian(|data| % 0x1_0000, 2)
    ensures f[3..7] == LittleEndian(crcSum, 4)
    ensures f[7..] == data
  {
    [PACKET] + LittleEndian(|data| % 0x1_0000, 2) + LittleEndian(crcSum, 4) + data
  }

  /** The frames of a run of packets, each with its own checksum. */
  function PacketFrames(crc: Checksum, packets: seq<seq<uint8>>): (fs: seq<seq<uint8>>)
    ensures |fs| == |packets|
    ensures forall j :: 0 <= j < |packets| ==> fs[j] == PacketFrame(packets[j], crc(packets[j]))
  {
    seq(|packets|, j requires 0 <= j < |packets| => PacketFrame(packets[j], crc(packets[j])))
  }

  datatype PacketHeader = PacketHeader(packetLen: uint16, crcSum: uint32)

  /** readPacketHeader: of the six header bytes after the tag, 0..2 are the
      length and 2..6 the checksum. */
  function DecodePacketHeader(h: seq<uint8>): (ph: PacketHeader)
    requires |h| == 6
    ensures LittleEndian(ph.packetLen, 2) == h[0..2] && LittleEndian(ph.crcSum, 4) == h[2..6]
  {
    Pow256Eight();
    EncodeDecode(h[0..2]);
    EncodeDecode(h[2..6]);
    PacketHeader(FromLittleEndian(h[0..2]), FromLittleEndian(h[2..6]))
  }

  lemma PacketHeaderRoundTrip(data: seq<uint8>, crcSum: uint32)
    requires |data| <= UINT16_MAX
    ensures DecodePacketHeader(PacketFrame(data, crcSum)[1..7]) == PacketHeader(|data|, crcSum)
  {
    var f := PacketFrame(data, crcSum);
    Pow256Eight();
    assert f[1..7][0..2] == f[1..3];
    assert f[1..7][2..6] == f[3..7];
    DecodeEncode(|data|, 2);
    DecodeEncode(crcSum, 4);
  }

  /** Read a start frame from the front of the link's bytes (readHeader in
      receive-packets, the first read in recieve-packets). With no byte at
      all the command byte is not TRANSFER_START: recieve-packets sets it to
      0 first, while receive-packets leaves it uninitialised and the model
      takes that indeterminate byte to be 0 as well. A link that ends inside
      the 48-byte body is closed. */
  function ReadStartFrame(input: seq<uint8>): (r: Result<(StartHeader, seq<uint8>)>)
    ensures r.Ok? ==> |input| >= 49 && input[0] == START && r.value.1 == input[49..]
    ensures r == Fail(NotStart) <==> input == [] || input[0] != START
  {
    if input == [] then Fail(NotStart)
    else if input[0] != START then Fail(NotStart)
    else if |input| < 49 then Fail(LinkClosed)
    else Ok((DecodeStartBody(input[1..49]), input[49..]))
  }

  lemma ReadStartFrameOfStartFrame(h: StartHeader, rest: seq<uint8>)
    ensures ReadStartFrame(StartFrame(h) + rest) == Ok((h, rest))
  {
    var input := StartFrame(h) + rest;
    assert input[1..49] == StartFrame(h)[1..];
    assert input[49..] == rest;
    StartFrameRoundTrip(h);
  }

  /** One received packet: its header and the data that followed it. */
  datatype Frame = Frame(header: PacketHeader, data: seq<uint8>)

  /** Read a packet frame from the front of the link's bytes (readPacketHeader,
      then readPacket of the declared length). With no byte at all the command
      byte keeps its initial 0, which is neither TRANSFER_END nor TRANSFER_PACKET. */
  function ReadPacketFrame(input: seq<uint8>): (r: Result<(Frame, seq<uint8>)>)
    ensures r.Ok? ==> |r.value.0.data| == r.value.0.header.packetLen
    ensures r.Ok? ==> |r.value.1| < |input|
    ensures r.Ok? ==> |input| >= 7 + |r.value.0.data| && input[0] == PACKET
    ensures r.Ok? ==> r.value.0.data == input[7..7 + |r.value.0.data|] && r.value.1 == input[7 + |r.value.0.data|..]
    ensures r.Ok? ==> |input| >= 7 && r.value.0.header == DecodePacketHeader(input[1..7])
    ensures r == Fail(PrematureEnd) <==> input != [] && input[0] == END
    ensures r == Fail(NotPacket) <==> input == [] || (input[0] != END && input[0] != PACKET)
  {
    if input == [] then Fail(NotPacket)
    else if input[0] == END then Fail(PrematureEnd)
    else if input[0] != PACKET then Fail(NotPacket)
    else if |input| < 7 then Fail(LinkClosed)
    else
      var header := DecodePacketHeader(input[1..7]);
      if |input| < 7 + header.packetLen then Fail(LinkClosed)
      else
        Ok((Frame(header, input[7..7 + header.packetLen]), input[7 + header.packetLen..]))
  }

  /** A packet frame written by writePacket is read back as its data and checksum. */
  lemma ReadPacketFrameOfPacketFrame(data: seq<uint8>, crcSum: uint32, rest: seq<uint8>)
    requires |data| <= UINT16_MAX
    ensures ReadPacketFrame(PacketFrame(data, crcSum) + rest)
         == Ok((Frame(PacketHeader(|data|, crcSum), data), rest))
  {
    var input := PacketFrame(data, crcSum) + rest;
    assert input[1..7] == PacketFrame(data, crcSum)[1..7];
    PacketHeaderRoundTrip(data, crcSum);
    assert input[7..7 + |data|] == data;
    assert input[7 + |data|..] == rest;
  }
}
