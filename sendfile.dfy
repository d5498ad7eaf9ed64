/**
 * send-file: the stop-and-wait sender over a whole file. It reads the file,
 * rejects a resume index that is not below the packet count, sends the start
 * frame when starting from packet 0, and then runs the stop-and-wait loop
 * over the frames of packets start, start + 1, ...
 *
 * The link is the sequence of reply bytes the receiver sends back and the
 * bytes this side writes; writeAllOrDie's chunking is proved separately in
 * Link and is taken here as delivering each frame whole.
 */
module SendFile {
  import opened Bytes
  import opened Protocol
  import opened Digest
  import opened Chunking
  import opened Codec
  import opened StopAndWait

  /** writePacket's frame of packet i of the file. */
  function DataFrame(data: seq<uint8>, crc: Checksum, i: nat): seq<uint8>
    requires i < PacketCount(|data|)
  {
    PacketFrame(Packet(data, i), crc(Packet(data, i)))
  }

  /** The frames of all packets, in order. */
  function Frames(data: seq<uint8>, crc: Checksum): (fs: seq<seq<uint8>>)
    ensures |fs| == PacketCount(|data|)
  {
    seq(PacketCount(|data|), i requires 0 <= i < PacketCount(|data|) => DataFrame(data, crc, i))
  }

  /** The header writeHeader sends when starting from packet 0, nothing when resuming. */
  function Preamble(data: seq<uint8>, sha: Hasher, start: nat): (p: seq<uint8>)
    requires |data| < UINT64_LIMIT
    ensures start == 0 ==> p == StartFrame(StartHeader(|data|, PacketCount(|data|), sha(data)))
    ensures start != 0 ==> p == []
  {
    if start == 0 then StartFrame(StartHeader(|data|, PacketCount(|data|), sha(data))) else []
  }

  /** The main program from reading the file on: an empty file, or a resume
      index at or past the packet count, is rejected before anything is sent;
      otherwise the link carries the preamble and then the stop-and-wait
      loop's frames. */
  method Send(data: seq<uint8>, start: nat, sha: Hasher, crc: Checksum, replies: seq<uint8>)
    returns (wire: seq<uint8>, outcome: Result<()>)
    requires |data| < UINT64_LIMIT
    ensures start >= PacketCount(|data|) ==> wire == [] && outcome == Fail(BadStartPacket)
    ensures |data| == 0 ==> outcome == Fail(BadStartPacket)
    ensures start < PacketCount(|data|) ==>
      wire == Preamble(data, sha, start) + SendFrom(SendFileSender, Frames(data, crc), start, replies).0
      && outcome == SendFrom(SendFileSender, Frames(data, crc), start, replies).1
  {
    var packetNum := PacketCount(|data|);
    if start >= packetNum {
      return [], Fail(BadStartPacket);
    }
    var preamble := Preamble(data, sha, start);
    var packets;
    packets, outcome := SendPackets(data, start, crc, replies);
    wire := preamble + packets;
  }

  /** The packet loop over the frames of packets start, start + 1, ...; the
      file does not change during the loop, so its frames are built up front. */
  method SendPackets(data: seq<uint8>, start: nat, crc: Checksum, replies: seq<uint8>)
    returns (wire: seq<uint8>, outcome: Result<()>)
    requires start < PacketCount(|data|)
    ensures (wire, outcome) == SendFrom(SendFileSender, Frames(data, crc), start, replies)
  {
    var frames := Frames(data, crc);
    wire, outcome := Run(SendFileSender, frames, start, replies);
  }

  /** The frames of all packets carry the whole file: frame j's data field is
      packet j, and the packets, concatenated in order, are the file. */
  lemma FramesCarryFile(data: seq<uint8>, crc: Checksum)
    ensures Frames(data, crc) == PacketFrames(crc, Packets(data))
    ensures forall j :: 0 <= j < PacketCount(|data|) ==> Frames(data, crc)[j][7..] == Packets(data)[j]
    ensures Flatten(Packets(data)) == data
  {
    PacketsReassemble(data);
  }

  /** With TRANSFER_NEXT after every packet, a transfer from packet 0 writes
      the header and then every packet's frame once, in order. */
  lemma SendWholeFile(data: seq<uint8>, sha: Hasher, crc: Checksum, replies: seq<uint8>)
    requires 0 < |data| < UINT64_LIMIT
    requires |replies| >= PacketCount(|data|)
    requires forall j :: 0 <= j < PacketCount(|data|) ==> replies[j] == NEXT
    ensures SendFrom(SendFileSender, Frames(data, crc), 0, replies) == (Flatten(Frames(data, crc)), Ok(()))
  {
    var frames := Frames(data, crc);
    SendAllNext(SendFileSender, frames, 0, replies);
    assert frames[0..] == frames;
  }
}
