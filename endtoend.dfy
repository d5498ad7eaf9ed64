/**
 * The programs run against each other over a link that delivers every byte
 * intact: send-file against receive-packets, and packetize, send-packets and
 * recieve-packets in a row. Each sender's reply bytes are the bytes its
 * receiver sends back, so a transfer is complete when both sides' views of
 * the run agree.
 */
module EndToEnd {
  import opened Bytes
  import opened Protocol
  import opened Digest
  import opened Decimal
  import opened Chunking
  import opened Codec
  import opened PacketFiles
  import opened StopAndWait
  import opened Receiver
  import SendFile
  import SendPackets
  import Packetize
  import RecievePackets

  /** Every packet of a file fits a packet frame's 16-bit length field. */
  lemma PacketsFit(data: seq<uint8>)
    ensures forall j :: 0 <= j < |Packets(data)| ==> |Packets(data)[j]| <= UINT16_MAX
  {
  }

  /** The packets of a file, as received and stored from packet i on,
      occupy PacketPath(dir, i), PacketPath(dir, i + 1), ... */
  lemma StoredPackets(disk: Disk, dir: string, packets: seq<seq<uint8>>)
    ensures forall k :: 0 <= k < |packets| ==>
      PacketPath(dir, k) in disk + Written(dir, 0, packets) && (disk + Written(dir, 0, packets))[PacketPath(dir, k)] == packets[k]
  {
    WrittenContents(dir, 0, packets);
  }

  /**
   * send-file from packet 0 against receive-packets: the receiver answers
   * every frame with TRANSFER_NEXT; given those replies the sender writes
   * the start frame and each packet's frame exactly once; the receiver reads
   * the file's length, packet count and digest from the start frame, stores
   * packet k as `<dir>/<k>.pkt`, and the stored packets put together are the
   * file.
   */
  lemma FileTransfer(data: seq<uint8>, sha: Hasher, crc: Checksum, dir: string, blocked: set<string>, disk: Disk)
    requires 0 < |data| < UINT64_LIMIT
    requires forall k :: 0 <= k < PacketCount(|data|) ==> PacketPath(dir, k) !in blocked
    ensures var n := PacketCount(|data|);
      var frames := Flatten(SendFile.Frames(data, crc));
      && SendFrom(SendFileSender, SendFile.Frames(data, crc), 0, Repeat(NEXT, n)) == (frames, Ok(()))
      && ReadStartFrame(SendFile.Preamble(data, sha, 0) + frames) == Ok((StartHeader(|data|, n, sha(data)), frames))
      && var r := ReceiveFrom(crc, dir, blocked, 0, n, frames, disk);
         && r.replies == Repeat(NEXT, n)
         && r.outcome == Ok([])
         && r.files == Packets(data)
         && Flatten(r.files) == data
         && r.store == disk + Written(dir, 0, Packets(data))
  {
    var n := PacketCount(|data|);
    var packets := Packets(data);
    PacketsFit(data);
    PacketCountIsCeiling(|data|);
    SendFile.FramesCarryFile(data, crc);
    SendFile.SendWholeFile(data, sha, crc, Repeat(NEXT, n));
    var frames := Flatten(SendFile.Frames(data, crc));
    ReadStartFrameOfStartFrame(StartHeader(|data|, n, sha(data)), frames);
    FramedIsFlatten(crc, packets);
    assert frames + [] == frames;
    ReceiveIntact(crc, dir, blocked, 0, n, packets, [], disk);
    ReceptionStore(crc, dir, blocked, 0, n, frames, disk);
  }

  /** The metadata file packetize writes next to the packet files reads
      back, in send-packets, as the file's length and packet count. */
  lemma PacketizedMeta(data: seq<uint8>, sha: Hasher, disk: Disk)
    requires 0 < |data| <= ULONG_MAX
    ensures var dir := Packetize.PacketDir(sha(data));
      var store := disk[dir + ".meta" := Packetize.PacketMeta(|data|)] + Written(dir, 0, Packets(data));
      && dir + ".meta" in store
      && ReadPacketMeta(AsText(store[dir + ".meta"])) == MetaOk(|data|, PacketCount(|data|))
  {
    var dir := Packetize.PacketDir(sha(data));
    var meta := dir + ".meta";
    WrittenContents(dir, 0, Packets(data));
    PacketCountIsCeiling(|data|);
    PacketMetaRoundTrip(|data|, PacketCount(|data|));
  }

  /** packetize's directory, as send-packets finds it: the directory name
      is the digest argument send-packets is given, and the packet files
      load as the file's packets. */
  lemma PacketizedDirectory(data: seq<uint8>, sha: Hasher, disk: Disk)
    ensures var dir := Packetize.PacketDir(sha(data));
      var store := disk[dir + ".meta" := Packetize.PacketMeta(|data|)] + Written(dir, 0, Packets(data));
      && SendPackets.ValidShaArg(HexText(sha(data)))
      && SendPackets.ShaOfArg(HexText(sha(data))) == sha(data)
      && SendPackets.STORE_DIR + "/" + HexText(sha(data)) == dir
      && SendPackets.LoadPackets(store, dir, 0, PacketCount(|data|)) == (Packets(data), Ok(()))
  {
    var dir := Packetize.PacketDir(sha(data));
    var base := disk[dir + ".meta" := Packetize.PacketMeta(|data|)];
    SendPackets.ShaArgOfHexText(sha(data));
    PacketsFit(data);
    StoredPackets(base, dir, Packets(data));
    SendPackets.LoadPacketsOfStore(base + Written(dir, 0, Packets(data)), dir, 0, PacketCount(|data|), Packets(data));
  }

  /**
   * send-packets over packetize's directory against recieve-packets: the
   * receiver answers every frame with TRANSFER_NEXT; given those replies the
   * sender writes the start frame, each packet's frame once and
   * TRANSFER_END; the receiver stores packet k as `<its dir>/<k>.pkt`,
   * writes the same metadata packetize wrote, and reads the closing
   * TRANSFER_END, so its directory is a copy of packetize's.
   */
  lemma PacketsTransfer(data: seq<uint8>, sha: Hasher, crc: Checksum, blocked: set<string>, disk: Disk)
    requires 0 < |data| <= ULONG_MAX
    requires forall k :: 0 <= k < PacketCount(|data|) ==> PacketPath(RecievePackets.PacketDir(sha(data)), k) !in blocked
    ensures var n := PacketCount(|data|);
      var h := StartHeader(|data|, n, sha(data));
      var frames := Flatten(PacketFrames(crc, Packets(data)));
      && SendPackets.Transfer(h, PacketFrames(crc, Packets(data)), Ok(()), Repeat(NEXT, n))
         == (StartFrame(h) + frames + [END], Ok(()))
      && ReadStartFrame(StartFrame(h) + frames + [END]) == Ok((h, frames + [END]))
      && RecievePackets.PacketMeta(h) == Packetize.PacketMeta(|data|)
      && var r := ReceiveFrom(crc, RecievePackets.PacketDir(sha(data)), blocked, 0, n, frames + [END], disk);
         && r.replies == Repeat(NEXT, n)
         && r.outcome == Ok([END])
         && RecievePackets.ReadEnd([END]) == Ok([])
         && r.files == Packets(data)
         && r.store == disk + Written(RecievePackets.PacketDir(sha(data)), 0, Packets(data))
  {
    var n := PacketCount(|data|);
    var h := StartHeader(|data|, n, sha(data));
    var packets := Packets(data);
    var dir := RecievePackets.PacketDir(sha(data));
    var frames := Flatten(PacketFrames(crc, packets));
    PacketsFit(data);
    PacketCountIsCeiling(|data|);
    SendAllNext(SendPacketsSender, PacketFrames(crc, packets), 0, Repeat(NEXT, n));
    assert PacketFrames(crc, packets)[0..] == PacketFrames(crc, packets);
    ReadStartFrameOfStartFrame(h, frames + [END]);
    assert StartFrame(h) + frames + [END] == StartFrame(h) + (frames + [END]);
    FramedIsFlatten(crc, packets);
    ReceiveIntact(crc, dir, blocked, 0, n, packets, [END], disk);
    ReceptionStore(crc, dir, blocked, 0, n, frames + [END], disk);
  }
}
