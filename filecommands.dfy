/**
 * The earlier, file-header variant of the responder: startDownload records
 * the requested path in `download-filemeta` and the next packet number in
 * `download-packetnum`, and replies with the file's length, packet count and
 * digest; startUpload accepts anything; fileCommand dispatches the first two
 * commands and drops the reply it gets.
 *
 * As in the pull-model responder, the directory is a map from path to
 * contents and `blocked` holds the paths that cannot be opened or created.
 */
module FileCommands {
  import opened Bytes
  import opened Protocol
  import opened Digest
  import opened Chunking
  import opened Codec
  import opened PacketFiles
  import Commands

  const DOWNLOAD_FILEMETA: string := "download-filemeta"
  const DOWNLOAD_PACKETNUM: string := "download-packetnum"

  /** The three fields of a download reply: the length and the packet count,
      each stored in a uint64_t, and the digest. */
  function DownloadHeader(data: seq<uint8>, sha: Hasher): (h: StartHeader)
    ensures h.shaSum == sha(data)
    ensures |data| < UINT64_LIMIT ==> h.fileSize == |data| && h.numPackets == PacketCount(|data|)
  {
    PacketCountAtMostLength(|data|);
    StartHeader(|data| % UINT64_LIMIT, PacketCount(|data|) % UINT64_LIMIT, sha(data))
  }

  /** startDownload: open and hash the requested file, then refuse while a
      download is recorded, then create both records. When the packet-number
      record cannot be created the path record is left behind, empty. */
  function StartDownloadStep(files: Disk, blocked: set<string>, sha: Hasher, buf: seq<uint8>): (r: Commands.Handled)
    ensures var path := Commands.PathOf(buf);
      r.reply.status == ErrorAlreadyDownloading <==>
        path in files && path !in blocked && (DOWNLOAD_FILEMETA in files || DOWNLOAD_PACKETNUM in files)
    ensures var path := Commands.PathOf(buf);
      r.reply.status == Success <==>
        && path in files && path !in blocked
        && DOWNLOAD_FILEMETA !in files && DOWNLOAD_PACKETNUM !in files
        && DOWNLOAD_FILEMETA !in blocked && DOWNLOAD_PACKETNUM !in blocked
    ensures r.reply.status == Success ==>
      && |r.reply.payload| == 48
      && DecodeStartBody(r.reply.payload) == DownloadHeader(files[Commands.PathOf(buf)], sha)
      && r.files == files[DOWNLOAD_FILEMETA := CString(buf)][DOWNLOAD_PACKETNUM := LittleEndian(0, 8)]
    ensures r.reply.status != Success ==> r.reply.payload == [] && r.reply.status in {ErrorAlreadyDownloading, ErrorFileIO}
    ensures r.reply.Fits()
    ensures r.reply.status == ErrorAlreadyDownloading ==> r.files == files
    ensures Commands.PathOf(buf) !in files || Commands.PathOf(buf) in blocked || DOWNLOAD_FILEMETA in blocked ==> r.files == files
    ensures var path := Commands.PathOf(buf);
      r.reply.status != Success && r.files != files <==>
        && path in files && path !in blocked
        && DOWNLOAD_FILEMETA !in files && DOWNLOAD_PACKETNUM !in files
        && DOWNLOAD_FILEMETA !in blocked && DOWNLOAD_PACKETNUM in blocked
    ensures r.reply.status != Success && r.files != files ==> r.files == files[DOWNLOAD_FILEMETA := []]
  {
    var path := Commands.PathOf(buf);
    if path !in files || path in blocked then Commands.Handled(EmptyReply(ErrorFileIO), files)
    else if DOWNLOAD_FILEMETA in files || DOWNLOAD_PACKETNUM in files then
      Commands.Handled(EmptyReply(ErrorAlreadyDownloading), files)
    else if DOWNLOAD_FILEMETA in blocked then Commands.Handled(EmptyReply(ErrorFileIO), files)
    else if DOWNLOAD_PACKETNUM in blocked then Commands.Handled(EmptyReply(ErrorFileIO), files[DOWNLOAD_FILEMETA := []])
    else
      var h := DownloadHeader(files[path], sha);
      StartFrameRoundTrip(h);
      Commands.Handled(Reply(Success, StartFrame(h)[1..]),
                       files[DOWNLOAD_FILEMETA := CString(buf)][DOWNLOAD_PACKETNUM := LittleEndian(0, 8)])
  }

  /** A download reply read back on the other side gives the file's length,
      the number of packets that cover it, and its digest. */
  lemma DownloadHeaderDescribesFile(data: seq<uint8>, sha: Hasher)
    requires |data| < UINT64_LIMIT
    ensures var h := DownloadHeader(data, sha);
      && h.fileSize == |data|
      && h.numPackets == PacketCount(|data|)
      && (h.numPackets - 1) * PACKET_SIZE < |data| <= h.numPackets * PACKET_SIZE
      && h.shaSum == sha(data)
  {
    PacketCountIsCeiling(|data|);
  }

  /** After a successful startDownload the records say the download is at
      packet 0 of the requested file. */
  lemma StartedDownloadRecords(files: Disk, blocked: set<string>, sha: Hasher, buf: seq<uint8>)
    requires StartDownloadStep(files, blocked, sha, buf).reply.status == Success
    ensures var started := StartDownloadStep(files, blocked, sha, buf).files;
      && DOWNLOAD_FILEMETA in started && DOWNLOAD_PACKETNUM in started
      && Commands.PathOf(started[DOWNLOAD_FILEMETA]) == Commands.PathOf(buf)
      && FromLittleEndian(started[DOWNLOAD_PACKETNUM]) == 0
  {
    assert DOWNLOAD_FILEMETA[9] != DOWNLOAD_PACKETNUM[9];
    CStringOfCString(buf);
    Pow256Eight();
    DecodeEncode(0, 8);
  }

  /** With the records already present, startDownload answers
      ERROR_ALREADY_DOWNLOADING after hashing the file and changes nothing. */
  lemma StartDownloadAgain(files: Disk, blocked: set<string>, sha: Hasher, buf: seq<uint8>, again: seq<uint8>)
    requires StartDownloadStep(files, blocked, sha, buf).reply.status == Success
    requires Commands.PathOf(again) in files && Commands.PathOf(again) !in blocked
    ensures var started := StartDownloadStep(files, blocked, sha, buf).files;
      StartDownloadStep(started, blocked, sha, again) == Commands.Handled(EmptyReply(ErrorAlreadyDownloading), started)
  {
  }

  /** The three copies into the download reply's 48 bytes lay the fields
      end to end. */
  lemma ThreeCopies(z: seq<uint8>, a: seq<uint8>, b: seq<uint8>, c: seq<uint8>)
    requires |z| == 48 && |a| == 8 && |b| == 8 && |c| == 32
    ensures Overwrite(Overwrite(Overwrite(z, 0, a), 8, b), 16, c) == a + b + c
  {
    var r := Overwrite(Overwrite(Overwrite(z, 0, a), 8, b), 16, c);
    assert r[..16] == Overwrite(Overwrite(z, 0, a), 8, b)[..16];
    assert r == r[..16] + r[16..];
  }

  /** Creating both records empty and then writing them leaves only what
      was written. */
  lemma RecordsRewritten(files: Disk, meta: seq<uint8>, num: seq<uint8>)
    ensures files[DOWNLOAD_FILEMETA := []][DOWNLOAD_PACKETNUM := []][DOWNLOAD_FILEMETA := meta][DOWNLOAD_PACKETNUM := num]
      == files[DOWNLOAD_FILEMETA := meta][DOWNLOAD_PACKETNUM := num]
  {
    assert DOWNLOAD_FILEMETA[9] != DOWNLOAD_PACKETNUM[9];
  }

  /** A start frame without its TRANSFER_START byte. */
  lemma StartBody(h: StartHeader)
    ensures StartFrame(h)[1..] == LittleEndian(h.fileSize, 8) + LittleEndian(h.numPackets, 8) + h.shaSum
  {
  }

  /** The responder of this variant: the working directory it changes, the
      paths it cannot open or create, and the digest function. */
  class DraftResponder {
    var files: Disk
    const blocked: set<string>
    const sha: Hasher

    constructor (files: Disk, blocked: set<string>, sha: Hasher)
      ensures this.files == files && this.blocked == blocked && this.sha == sha
    {
      this.files := files;
      this.blocked := blocked;
      this.sha := sha;
    }

    method StartDownload(buf: seq<uint8>) returns (r: Reply)
      modifies this
      ensures Commands.Handled(r, files) == StartDownloadStep(old(files), blocked, sha, buf)
    {
      var path := Commands.PathOf(buf);
      if path !in files || path in blocked {
        return EmptyReply(ErrorFileIO);
      }
      var fileData := files[path];
      var fileLen := |fileData|;
      var packetNum := PacketCount(fileLen);
      var shaSum := sha(fileData);
      if DOWNLOAD_FILEMETA in files || DOWNLOAD_PACKETNUM in files {
        return EmptyReply(ErrorAlreadyDownloading);
      }
      if DOWNLOAD_FILEMETA in blocked {
        return EmptyReply(ErrorFileIO);
      }
      files := files[DOWNLOAD_FILEMETA := []];
      if DOWNLOAD_PACKETNUM in blocked {
        return EmptyReply(ErrorFileIO);
      }
      files := files[DOWNLOAD_PACKETNUM := []];
      files := files[DOWNLOAD_FILEMETA := CString(buf)];
      files := files[DOWNLOAD_PACKETNUM := LittleEndian(0, 8)];
      var payload := new uint8[48];
      ghost var blank := payload[..];
      Copy(payload, 0, LittleEndian(fileLen % UINT64_LIMIT, 8));
      Copy(payload, 8, LittleEndian(packetNum % UINT64_LIMIT, 8));
      Copy(payload, 16, shaSum);
      ghost var h := DownloadHeader(fileData, sha);
      ThreeCopies(blank, LittleEndian(fileLen % UINT64_LIMIT, 8), LittleEndian(packetNum % UINT64_LIMIT, 8), shaSum);
      StartBody(h);
      assert payload[..] == StartFrame(h)[1..];
      RecordsRewritten(old(files), CString(buf), LittleEndian(0, 8));
      r := Reply(Success, payload[..]);
    }

    /** startUpload: a stub that answers SUCCESS. */
    method StartUpload(buf: seq<uint8>) returns (r: Reply)
      ensures r == EmptyReply(Success)
    {
      r := EmptyReply(Success);
    }

    /** fileCommand: the first byte picks startDownload (1) or startUpload
        (2), which gets the rest of the buffer. The method returns that
        handler's reply, which file-commands.c:160 computes and then
        discards; the caller sees only the new directory. */
    method FileCommand(buf: seq<uint8>) returns (r: Reply)
      requires |buf| >= 1
      requires buf[0] == CommandCode(Command.StartDownload) || buf[0] == CommandCode(Command.StartUpload)
      modifies this
      ensures buf[0] == CommandCode(Command.StartDownload) ==>
        Commands.Handled(r, files) == StartDownloadStep(old(files), blocked, sha, buf[1..])
      ensures buf[0] == CommandCode(Command.StartUpload) ==> r == EmptyReply(Success) && files == old(files)
    {
      var command := buf[0];
      if command == CommandCode(Command.StartDownload) {
        r := StartDownload(buf[1..]);
      } else {
        r := StartUpload(buf[1..]);
      }
    }
  }
}
