/**
 * recieve-packets: the receiver paired with send-packets. It reads the start
 * frame, creates the directory `../packet-test2/<digest as hex>` and, next to
 * it, `<that directory>.meta` holding the file length and the packet count,
 * runs the receiving loop from packet 0, and finally expects TRANSFER_END.
 */
module RecievePackets {
  import opened Bytes
  import opened Protocol
  import opened Digest
  import opened Decimal
  import opened Codec
  import opened PacketFiles
  import opened Receiver

  const STORE_DIR: string := "../packet-test2"

  /** The directory a transfer's packets go to. */
  function PacketDir(shaSum: Digest): (d: string)
    ensures |d| == |STORE_DIR| + 65 && d[..|STORE_DIR| + 1] == STORE_DIR + "/"
    ensures forall k :: |STORE_DIR| + 1 <= k < |d| ==> IsLowerHex(d[k])
  {
    HexTextAlphabet(shaSum);
    STORE_DIR + "/" + HexText(shaSum)
  }

  /** The packet metadata file: the directory's name with `.meta` appended. */
  function MetaPath(shaSum: Digest): string
  {
    PacketDir(shaSum) + ".meta"
  }

  /** The contents written to the metadata file. */
  function PacketMeta(h: StartHeader): (b: seq<uint8>)
    ensures AsText(b) == PacketMetaText(h.fileSize, h.numPackets)
  {
    PacketMetaIsByteText(h.fileSize, h.numPackets);
    AsTextOfTextBytes(PacketMetaText(h.fileSize, h.numPackets));
    TextBytes(PacketMetaText(h.fileSize, h.numPackets))
  }

  /** The closing read: with no byte left the command variable still holds
      TRANSFER_START, which is not TRANSFER_END. */
  function ReadEnd(rest: seq<uint8>): (r: Result<seq<uint8>>)
    ensures r.Ok? <==> rest != [] && rest[0] == END
    ensures r.Ok? ==> r.value == rest[1..]
    ensures r.Fail? ==> r.why == NotEnd
  {
    if rest == [] || rest[0] != END then Fail(NotEnd) else Ok(rest[1..])
  }

  /** The three file-system steps before the loop either fail or leave the
      metadata file in place. */
  function Prepare(h: StartHeader, blocked: set<string>, disk: Disk): (r: Result<Disk>)
    ensures r.Ok? <==> PacketDir(h.shaSum) !in blocked && MetaPath(h.shaSum) !in blocked
    ensures r.Ok? ==> r.value == disk[MetaPath(h.shaSum) := PacketMeta(h)]
    ensures r.Fail? ==> r.why == FileError
  {
    if PacketDir(h.shaSum) in blocked || MetaPath(h.shaSum) in blocked then Fail(FileError)
    else Ok(disk[MetaPath(h.shaSum) := PacketMeta(h)])
  }

  /** main after opening the two pipes: `input` is what arrives on the input
      pipe, the replies go to the output pipe. */
  method Recieve(crc: Checksum, blocked: set<string>, input: seq<uint8>, disk: Disk)
    returns (replies: seq<uint8>, store: Disk, outcome: Result<seq<uint8>>)
    ensures ReadStartFrame(input).Fail? ==>
      replies == [] && store == disk && outcome == Fail(ReadStartFrame(input).why)
    ensures ReadStartFrame(input).Ok? && Prepare(ReadStartFrame(input).value.0, blocked, disk).Fail? ==>
      replies == [] && store == disk && outcome == Fail(FileError)
    ensures ReadStartFrame(input).Ok? && Prepare(ReadStartFrame(input).value.0, blocked, disk).Ok? ==>
      var h := ReadStartFrame(input).value.0;
      var r := ReceiveFrom(crc, PacketDir(h.shaSum), blocked, 0, h.numPackets, ReadStartFrame(input).value.1,
                           Prepare(h, blocked, disk).value);
      replies == r.replies && store == r.store
      && outcome == (if r.outcome.Ok? then ReadEnd(r.outcome.value) else r.outcome)
  {
    var header := ReadStartFrame(input);
    if header.Fail? {
      return [], disk, Fail(header.why);
    }
    var h, rest := header.value.0, header.value.1;
    var shaStr := new char[65];
    Sha256Str(shaStr, h.shaSum);
    var pktDir := STORE_DIR + "/" + shaStr[..64];
    if pktDir in blocked {
      return [], disk, Fail(FileError);
    }
    var metaPath := pktDir + ".meta";
    if metaPath in blocked {
      return [], disk, Fail(FileError);
    }
    store := disk[metaPath := PacketMeta(h)];
    var looped;
    replies, store, looped := ReceiveLoop(crc, pktDir, blocked, 0, h.numPackets, rest, store);
    if looped.Fail? {
      return replies, store, looped;
    }
    outcome := ReadEnd(looped.value);
  }
}
