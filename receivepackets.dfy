/**
 * receive-packets: the receiver paired with send-file. It reads the start
 * frame, records the transfer in `receiving.meta` (digest text, file length,
 * packet count), and runs the receiving loop from the resume index given with
 * `--start`, writing each intact packet to `<dir>/<i>.pkt`. It does not read
 * a closing TRANSFER_END.
 */
module ReceivePackets {
  import opened Bytes
  import opened Digest
  import opened Decimal
  import opened Codec
  import opened PacketFiles
  import opened Receiver

  const RECEIVING_FILE: string := "receiving.meta"

  /** The contents createMetadataFile writes for a start header. */
  function ReceivingMeta(h: StartHeader): (b: seq<uint8>)
    ensures AsText(b) == ReceivingMetaText(h.shaSum, h.fileSize, h.numPackets)
  {
    ReceivingMetaIsByteText(h.shaSum, h.fileSize, h.numPackets);
    AsTextOfTextBytes(ReceivingMetaText(h.shaSum, h.fileSize, h.numPackets));
    TextBytes(ReceivingMetaText(h.shaSum, h.fileSize, h.numPackets))
  }

  /** main from readHeader on: `dir` and `start` are the `--directory` and
      `--start` options, `input` the bytes arriving on the serial device,
      `blocked` the paths that cannot be opened for writing. */
  method Receive(dir: string, start: nat, crc: Checksum, blocked: set<string>, input: seq<uint8>, disk: Disk)
    returns (replies: seq<uint8>, store: Disk, outcome: Result<seq<uint8>>)
    ensures ReadStartFrame(input).Fail? ==>
      replies == [] && store == disk && outcome == Fail(ReadStartFrame(input).why)
    ensures ReadStartFrame(input).Ok? && RECEIVING_FILE in blocked ==>
      replies == [] && store == disk && outcome == Fail(FileError)
    ensures ReadStartFrame(input).Ok? && RECEIVING_FILE !in blocked ==>
      var h := ReadStartFrame(input).value.0;
      var r := ReceiveFrom(crc, dir, blocked, start, h.numPackets, ReadStartFrame(input).value.1,
                           disk[RECEIVING_FILE := ReceivingMeta(h)]);
      replies == r.replies && store == r.store && outcome == r.outcome
  {
    var header := ReadStartFrame(input);
    if header.Fail? {
      return [], disk, Fail(header.why);
    }
    var h, rest := header.value.0, header.value.1;
    if RECEIVING_FILE in blocked {
      return [], disk, Fail(FileError);
    }
    var meta := disk[RECEIVING_FILE := ReceivingMeta(h)];
    replies, store, outcome := ReceiveLoop(crc, dir, blocked, start, h.numPackets, rest, meta);
  }
}
