/**
 * The pull-model responder: seven command handlers over a working directory
 * in which a download is recorded by `download-filepath` (the file's path)
 * and `download-fileoffset` (the next offset, 8 bytes little-endian), and an
 * upload by `upload-filemeta` (the expected digest) and `upload-received`
 * (the bytes received so far).
 *
 * The directory is a map from path to contents. `blocked` is the set of
 * paths that cannot be opened or created, which is what makes the
 * ERROR_FILE_IO branches reachable. Each handler is a function from the old
 * directory to its reply and the new directory; the class Responder holds
 * the directory and runs the handlers step by step as the C code does.
 */
module Commands {
  import opened Bytes
  import opened Protocol
  import opened Digest
  import opened Chunking
  import opened PacketFiles

  const DOWNLOAD_FILEPATH: string := "download-filepath"
  const DOWNLOAD_FILEOFFSET: string := "download-fileoffset"
  const UPLOAD_FILEMETA: string := "upload-filemeta"
  const UPLOAD_RECEIVED: string := "upload-received"

  /** The digest copy of startDownload's reply as written lands at offset 32
      of the 32-byte payload, wholly past its end; the copy at offset 0 fills
      the payload with the digest, which is the reply StartDownloadStep
      describes. */
  lemma StartDownloadCopyAsWritten(payload: seq<uint8>, shaSum: Digest)
    requires |payload| == 32
    ensures CopyWithin(payload, 32, shaSum) == None
    ensures CopyWithin(payload, 0, shaSum).Some? && CopyWithin(payload, 0, shaSum).value == shaSum
  {
    assert Overwrite(payload, 0, shaSum) == Overwrite(payload, 0, shaSum)[0..32];
  }

  /** What a handler returns, and the directory it leaves. */
  datatype Handled = Handled(reply: Reply, files: Disk)

  /** The path a handler builds from its payload: the bytes up to the first
      NUL, as characters. */
  function PathOf(b: seq<uint8>): (p: string)
    ensures |p| <= |b| && (|p| < |b| ==> b[|p|] == 0)
    ensures forall k :: 0 <= k < |p| ==> p[k] as int == b[k] != 0
  {
    AsText(CString(b))
  }

  /** A download record can be read: the offset record holds at least the
      8 bytes `fread(&offset, 8, 1, ...)` reads. */
  predicate DownloadReadable(files: Disk)
  {
    DOWNLOAD_FILEPATH in files && DOWNLOAD_FILEOFFSET in files ==> |files[DOWNLOAD_FILEOFFSET]| >= 8
  }

  /** An upload record can be read: the digest record holds at least the
      32 bytes `fread(shaSumGiven, 32, 1, ...)` reads. */
  predicate UploadReadable(files: Disk)
  {
    UPLOAD_FILEMETA in files && UPLOAD_RECEIVED in files ==> |files[UPLOAD_FILEMETA]| >= 32
  }

  /** startDownload: refuse while a download is recorded, then open and hash
      the requested file, then create both records. When the offset record
      cannot be created the path record is left behind, empty. */
  function StartDownloadStep(files: Disk, blocked: set<string>, sha: Hasher, buf: seq<uint8>): (r: Handled)
    ensures r.reply.status == ErrorAlreadyDownloading <==> DOWNLOAD_FILEPATH in files || DOWNLOAD_FILEOFFSET in files
    ensures r.reply.status == Success <==>
      && DOWNLOAD_FILEPATH !in files && DOWNLOAD_FILEOFFSET !in files
      && PathOf(buf) in files && PathOf(buf) !in blocked
      && DOWNLOAD_FILEPATH !in blocked && DOWNLOAD_FILEOFFSET !in blocked
    ensures r.reply.status == Success ==>
      && r.reply.payload == sha(files[PathOf(buf)])
      && r.files == files[DOWNLOAD_FILEPATH := CString(buf)][DOWNLOAD_FILEOFFSET := LittleEndian(0, 8)]
    ensures r.reply.status != Success ==> r.reply.payload == [] && r.reply.status in {ErrorAlreadyDownloading, ErrorFileIO}
    ensures r.reply.status == ErrorAlreadyDownloading ==> r.files == files
    ensures PathOf(buf) !in files || PathOf(buf) in blocked || DOWNLOAD_FILEPATH in blocked ==> r.files == files
    ensures r.reply.status != Success && r.files != files <==>
      && DOWNLOAD_FILEPATH !in files && DOWNLOAD_FILEOFFSET !in files
      && PathOf(buf) in files && PathOf(buf) !in blocked
      && DOWNLOAD_FILEPATH !in blocked && DOWNLOAD_FILEOFFSET in blocked
    ensures r.reply.status != Success && r.files != files ==> r.files == files[DOWNLOAD_FILEPATH := []]
  {
    if DOWNLOAD_FILEPATH in files || DOWNLOAD_FILEOFFSET in files then Handled(EmptyReply(ErrorAlreadyDownloading), files)
    else
      var path := PathOf(buf);
      if path !in files || path in blocked then Handled(EmptyReply(ErrorFileIO), files)
      else if DOWNLOAD_FILEPATH in blocked then Handled(EmptyReply(ErrorFileIO), files)
      else if DOWNLOAD_FILEOFFSET in blocked then Handled(EmptyReply(ErrorFileIO), files[DOWNLOAD_FILEPATH := []])
      else
        Handled(Reply(Success, sha(files[path])),
                files[DOWNLOAD_FILEPATH := CString(buf)][DOWNLOAD_FILEOFFSET := LittleEndian(0, 8)])
  }

  /** startUpload: refuse while an upload is recorded, then create the digest
      record with the first 32 payload bytes and an empty received file. When
      the received file cannot be created the digest record is left behind,
      empty. */
  function StartUploadStep(files: Disk, blocked: set<string>, buf: seq<uint8>): (r: Handled)
    requires |buf| >= 32
    ensures r.reply.payload == []
    ensures r.reply.status == ErrorAlreadyUploading <==> UPLOAD_FILEMETA in files || UPLOAD_RECEIVED in files
    ensures r.reply.status == Success <==>
      UPLOAD_FILEMETA !in files && UPLOAD_RECEIVED !in files && UPLOAD_FILEMETA !in blocked && UPLOAD_RECEIVED !in blocked
    ensures r.reply.status == Success ==> r.files == files[UPLOAD_FILEMETA := buf[..32]][UPLOAD_RECEIVED := []]
    ensures r.reply.status != Success ==> r.reply.status in {ErrorAlreadyUploading, ErrorFileIO}
    ensures r.reply.status == ErrorAlreadyUploading ==> r.files == files
    ensures UPLOAD_FILEMETA in blocked ==> r.files == files
    ensures r.reply.status != Success && r.files != files <==>
      UPLOAD_FILEMETA !in files && UPLOAD_RECEIVED !in files && UPLOAD_FILEMETA !in blocked && UPLOAD_RECEIVED in blocked
    ensures r.reply.status != Success && r.files != files ==> r.files == files[UPLOAD_FILEMETA := []]
  {
    if UPLOAD_FILEMETA in files || UPLOAD_RECEIVED in files then Handled(EmptyReply(ErrorAlreadyUploading), files)
    else if UPLOAD_FILEMETA in blocked then Handled(EmptyReply(ErrorFileIO), files)
    else if UPLOAD_RECEIVED in blocked then Handled(EmptyReply(ErrorFileIO), files[UPLOAD_FILEMETA := []])
    else Handled(EmptyReply(Success), files[UPLOAD_FILEMETA := buf[..32]][UPLOAD_RECEIVED := []])
  }

  /** What requestPacket finds before it would update the offset record: an
      error status, or the next packet and the offset after it. */
  datatype PacketRead = NoPacket(status: Status) | NextPacket(payload: seq<uint8>, newOffset: nat)

  /** requestPacket up to the offset update: both records must exist and
      open, the recorded file must exist and open, and the offset must be
      below its length; the packet is the min(PACKET_SIZE, len - offset)
      bytes from the offset. */
  function ReadNextPacket(files: Disk, blocked: set<string>): (r: PacketRead)
    requires DownloadReadable(files)
    ensures r.NoPacket? ==> r.status in {ErrorNotDownloading, ErrorFileIO, ErrorFileDoesntExist, ErrorDownloadOver}
    ensures r.NoPacket? && r.status == ErrorNotDownloading <==>
      DOWNLOAD_FILEPATH !in files || DOWNLOAD_FILEOFFSET !in files
    ensures r.NextPacket? ==>
      && DOWNLOAD_FILEPATH in files && DOWNLOAD_FILEOFFSET in files
      && var path := PathOf(files[DOWNLOAD_FILEPATH]);
         var offset := FromLittleEndian(files[DOWNLOAD_FILEOFFSET][..8]);
         && path in files && offset < |files[path]|
         && 1 <= |r.payload| <= PACKET_SIZE
         && r.newOffset == offset + |r.payload| <= |files[path]|
         && r.payload == files[path][offset..r.newOffset]
         && (r.newOffset < |files[path]| ==> |r.payload| == PACKET_SIZE)
    ensures DOWNLOAD_FILEPATH in files && DOWNLOAD_FILEOFFSET in files ==>
      var path := PathOf(files[DOWNLOAD_FILEPATH]);
      var offset := FromLittleEndian(files[DOWNLOAD_FILEOFFSET][..8]);
      var open := DOWNLOAD_FILEPATH !in blocked && DOWNLOAD_FILEOFFSET !in blocked;
      && (r == NoPacket(ErrorFileIO) <==> !open || (path in files && path in blocked))
      && (r == NoPacket(ErrorFileDoesntExist) <==> open && path !in files)
      && (r == NoPacket(ErrorDownloadOver) <==> open && path in files && path !in blocked && |files[path]| <= offset)
      && (r.NextPacket? <==> open && path in files && path !in blocked && offset < |files[path]|)
  {
    if DOWNLOAD_FILEPATH !in files || DOWNLOAD_FILEOFFSET !in files then NoPacket(ErrorNotDownloading)
    else if DOWNLOAD_FILEPATH in blocked || DOWNLOAD_FILEOFFSET in blocked then NoPacket(ErrorFileIO)
    else
      var path := PathOf(files[DOWNLOAD_FILEPATH]);
      var offset := FromLittleEndian(files[DOWNLOAD_FILEOFFSET][..8]);
      if path !in files then NoPacket(ErrorFileDoesntExist)
      else if path in blocked then NoPacket(ErrorFileIO)
      else if |files[path]| <= offset then NoPacket(ErrorDownloadOver)
      else
        var n := if |files[path]| - offset > PACKET_SIZE then PACKET_SIZE else |files[path]| - offset;
        NextPacket(files[path][offset..offset + n], offset + n)
  }

  /** requestPacket as its comment at the update describes it: the offset
      record, open "r+" and rewound, has its first 8 bytes overwritten with
      the offset after the packet (a uint64_t); any bytes after them stay.
      On every error path nothing changes. */
  function RequestPacketStep(files: Disk, blocked: set<string>): (r: Handled)
    requires DownloadReadable(files)
    ensures DownloadReadable(r.files)
    ensures ReadNextPacket(files, blocked).NoPacket? ==>
      r == Handled(EmptyReply(ReadNextPacket(files, blocked).status), files)
    ensures ReadNextPacket(files, blocked).NextPacket? ==>
      var p := ReadNextPacket(files, blocked);
      r == Handled(Reply(Success, p.payload),
                   files[DOWNLOAD_FILEOFFSET := Overwrite(files[DOWNLOAD_FILEOFFSET], 0, LittleEndian(p.newOffset % UINT64_LIMIT, 8))])
  {
    match ReadNextPacket(files, blocked)
    case NoPacket(status) => Handled(EmptyReply(status), files)
    case NextPacket(payload, newOffset) =>
      Handled(Reply(Success, payload),
              files[DOWNLOAD_FILEOFFSET := Overwrite(files[DOWNLOAD_FILEOFFSET], 0, LittleEndian(newOffset % UINT64_LIMIT, 8))])
  }

  /** requestPacket as written: the new offset goes to the stream of the
      file being downloaded, which is open for reading only, so no record
      changes at all. */
  function RequestPacketStepAsWritten(files: Disk, blocked: set<string>): (r: Handled)
    requires DownloadReadable(files)
    ensures r.files == files
    ensures r.reply == RequestPacketStep(files, blocked).reply
  {
    match ReadNextPacket(files, blocked)
    case NoPacket(status) => Handled(EmptyReply(status), files)
    case NextPacket(payload, _) => Handled(Reply(Success, payload), files)
  }

  /** sendPacket: append the payload to the received file while an upload is
      recorded; nothing else changes. */
  function SendPacketStep(files: Disk, blocked: set<string>, buf: seq<uint8>): (r: Handled)
    ensures r.reply.payload == []
    ensures r.reply.status == ErrorNotUploading <==> UPLOAD_FILEMETA !in files || UPLOAD_RECEIVED !in files
    ensures r.reply.status == Success <==>
      UPLOAD_FILEMETA in files && UPLOAD_RECEIVED in files && UPLOAD_RECEIVED !in blocked
    ensures r.reply.status == Success ==> r.files == files[UPLOAD_RECEIVED := files[UPLOAD_RECEIVED] + buf]
    ensures r.reply.status != Success ==> r.files == files && r.reply.status in {ErrorNotUploading, ErrorFileIO}
  {
    if UPLOAD_FILEMETA !in files || UPLOAD_RECEIVED !in files then Handled(EmptyReply(ErrorNotUploading), files)
    else if UPLOAD_RECEIVED in blocked then Handled(EmptyReply(ErrorFileIO), files)
    else Handled(EmptyReply(Success), files[UPLOAD_RECEIVED := files[UPLOAD_RECEIVED] + buf])
  }

  /** cancelUpload: remove both upload records, whether or not they exist. */
  function CancelUploadStep(files: Disk): (r: Handled)
    ensures r.reply == EmptyReply(Success)
    ensures UPLOAD_FILEMETA !in r.files && UPLOAD_RECEIVED !in r.files
    ensures forall p :: p != UPLOAD_FILEMETA && p != UPLOAD_RECEIVED ==>
      (p in r.files <==> p in files) && (p in files ==> r.files[p] == files[p])
  {
    Handled(EmptyReply(Success), files - {UPLOAD_FILEMETA, UPLOAD_RECEIVED})
  }

  /** cancelDownload: remove both download records, whether or not they exist. */
  function CancelDownloadStep(files: Disk): (r: Handled)
    ensures r.reply == EmptyReply(Success)
    ensures DOWNLOAD_FILEPATH !in r.files && DOWNLOAD_FILEOFFSET !in r.files
    ensures forall p :: p != DOWNLOAD_FILEPATH && p != DOWNLOAD_FILEOFFSET ==>
      (p in r.files <==> p in files) && (p in files ==> r.files[p] == files[p])
  {
    Handled(EmptyReply(Success), files - {DOWNLOAD_FILEPATH, DOWNLOAD_FILEOFFSET})
  }

  /** rename(from, to) with its error ignored: it fails, changing nothing,
      when `to` cannot be created; renaming a file to itself changes nothing;
      otherwise `to` takes `from`'s contents, replacing any file there. */
  function Rename(files: Disk, blocked: set<string>, from: string, to: string): (r: Disk)
    requires from in files
    ensures to in blocked || to == from ==> r == files
    ensures to !in blocked && to != from ==>
      && from !in r && to in r && r[to] == files[from]
      && forall p :: p != from && p != to ==> (p in r <==> p in files) && (p in files ==> r[p] == files[p])
  {
    if to in blocked || to == from then files else (files - {from})[to := files[from]]
  }

  /** finalizeUpload: with both upload records present and open, hash the
      received bytes and compare with the recorded digest; on a match move
      the received file to the given path and remove the digest record. */
  function FinalizeUploadStep(files: Disk, blocked: set<string>, sha: Hasher, buf: seq<uint8>): (r: Handled)
    requires UploadReadable(files)
    ensures r.reply.payload == []
    ensures r.reply.status == ErrorNotUploading <==> UPLOAD_FILEMETA !in files || UPLOAD_RECEIVED !in files
    ensures r.reply.status == ErrorShasumMismatch <==>
      && UPLOAD_FILEMETA in files && UPLOAD_RECEIVED in files
      && UPLOAD_FILEMETA !in blocked && UPLOAD_RECEIVED !in blocked
      && sha(files[UPLOAD_RECEIVED]) != files[UPLOAD_FILEMETA][..32]
    ensures r.reply.status != Success ==> r.files == files
    ensures r.reply.status == Success ==>
      && UPLOAD_FILEMETA in files && UPLOAD_RECEIVED in files
      && sha(files[UPLOAD_RECEIVED]) == files[UPLOAD_FILEMETA][..32]
      && r.files == Rename(files, blocked, UPLOAD_RECEIVED, PathOf(buf)) - {UPLOAD_FILEMETA}
  {
    if UPLOAD_FILEMETA !in files || UPLOAD_RECEIVED !in files then Handled(EmptyReply(ErrorNotUploading), files)
    else if UPLOAD_FILEMETA in blocked || UPLOAD_RECEIVED in blocked then Handled(EmptyReply(ErrorFileIO), files)
    else
      var shaSum := sha(files[UPLOAD_RECEIVED]);
      var shaSumGiven := files[UPLOAD_FILEMETA][..32];
      if !SameDigest(shaSum, shaSumGiven) then Handled(EmptyReply(ErrorShasumMismatch), files)
      else Handled(EmptyReply(Success), Rename(files, blocked, UPLOAD_RECEIVED, PathOf(buf)) - {UPLOAD_FILEMETA})
  }

  /** What each handler needs of its payload and of the records it reads. */
  predicate Supported(c: Command, files: Disk, buf: seq<uint8>)
  {
    match c
    case StartUpload => |buf| >= 32
    case RequestPacket => DownloadReadable(files)
    case FinalizeUpload => UploadReadable(files)
    case _ => true
  }

  /** The handler of command c. */
  function Handle(c: Command, files: Disk, blocked: set<string>, sha: Hasher, buf: seq<uint8>): (r: Handled)
    requires Supported(c, files, buf)
    ensures |r.reply.payload| <= PACKET_SIZE && r.reply.Fits()
    ensures r.reply.payload != [] ==> r.reply.status == Success
  {
    PacketSizeFitsSixteenBits();
    match c
    case StartDownload => StartDownloadStep(files, blocked, sha, buf)
    case StartUpload => StartUploadStep(files, blocked, buf)
    case RequestPacket => RequestPacketStep(files, blocked)
    case SendPacket => SendPacketStep(files, blocked, buf)
    case CancelUpload => CancelUploadStep(files)
    case CancelDownload => CancelDownloadStep(files)
    case FinalizeUpload => FinalizeUploadStep(files, blocked, sha, buf)
  }

  /** runCommand: the command byte indexes the handler table, and the handler
      gets the buffer without its first byte. */
  function RunCommandStep(command: uint8, files: Disk, blocked: set<string>, sha: Hasher, buf: seq<uint8>): (r: Handled)
    requires 1 <= command <= 7 && |buf| >= 1
    requires Supported(CommandTable(command).value, files, buf[1..])
    ensures |r.reply.payload| <= PACKET_SIZE && r.reply.Fits()
    ensures r.reply.payload != [] ==> r.reply.status == Success
  {
    Handle(CommandTable(command).value, files, blocked, sha, buf[1..])
  }

  /** A command byte selects the handler of that code, which sees the rest of
      the buffer. */
  lemma RunCommandDispatch(c: Command, files: Disk, blocked: set<string>, sha: Hasher, payload: seq<uint8>)
    requires Supported(c, files, payload)
    ensures 1 <= CommandCode(c) <= 7
    ensures RunCommandStep(CommandCode(c), files, blocked, sha, [CommandCode(c)] + payload)
      == Handle(c, files, blocked, sha, payload)
  {
    CommandTableMatchesCodes(c, CommandCode(c));
    assert ([CommandCode(c)] + payload)[1..] == payload;
  }

  /** Creating both download records empty and then writing them leaves
      only what was written. */
  lemma RecordsRewritten(files: Disk, path: seq<uint8>, offset: seq<uint8>)
    ensures files[DOWNLOAD_FILEPATH := []][DOWNLOAD_FILEOFFSET := []][DOWNLOAD_FILEPATH := path][DOWNLOAD_FILEOFFSET := offset]
      == files[DOWNLOAD_FILEPATH := path][DOWNLOAD_FILEOFFSET := offset]
  {
    assert DOWNLOAD_FILEPATH[13] != DOWNLOAD_FILEOFFSET[13];
  }

  /** The responder: the working directory it changes, the paths it cannot
      open or create, and the digest function. */
  class Responder {
    var files: Disk
    const blocked: set<string>
    const sha: Hasher

    constructor (files: Disk, blocked: set<string>, sha: Hasher)
      ensures this.files == files && this.blocked == blocked && this.sha == sha
    {
      this.files := files;
      this.blocked := blocked;
      this.sha := sha;
    }

    method StartDownload(buf: seq<uint8>) returns (r: Reply)
      modifies this
      ensures Handled(r, files) == StartDownloadStep(old(files), blocked, sha, buf)
    {
      if DOWNLOAD_FILEPATH in files || DOWNLOAD_FILEOFFSET in files {
        return EmptyReply(ErrorAlreadyDownloading);
      }
      var path := PathOf(buf);
      if path !in files {
        return EmptyReply(ErrorFileIO);
      }
      if path in blocked {
        return EmptyReply(ErrorFileIO);
      }
      var shaSum := sha(files[path]);
      if DOWNLOAD_FILEPATH in blocked {
        return EmptyReply(ErrorFileIO);
      }
      files := files[DOWNLOAD_FILEPATH := []];
      if DOWNLOAD_FILEOFFSET in blocked {
        return EmptyReply(ErrorFileIO);
      }
      files := files[DOWNLOAD_FILEOFFSET := []];
      files := files[DOWNLOAD_FILEPATH := CString(buf)];
      files := files[DOWNLOAD_FILEOFFSET := LittleEndian(0, 8)];
      var payload := new uint8[32];
      Copy(payload, 0, shaSum);
      assert payload[..] == payload[..][0..32];
      RecordsRewritten(old(files), CString(buf), LittleEndian(0, 8));
      r := Reply(Success, payload[..]);
    }

    method StartUpload(buf: seq<uint8>) returns (r: Reply)
      requires |buf| >= 32
      modifies this
      ensures Handled(r, files) == StartUploadStep(old(files), blocked, buf)
    {
      if UPLOAD_FILEMETA in files || UPLOAD_RECEIVED in files {
        return EmptyReply(ErrorAlreadyUploading);
      }
      if UPLOAD_FILEMETA in blocked {
        return EmptyReply(ErrorFileIO);
      }
      files := files[UPLOAD_FILEMETA := []];
      if UPLOAD_RECEIVED in blocked {
        return EmptyReply(ErrorFileIO);
      }
      files := files[UPLOAD_RECEIVED := []];
      files := files[UPLOAD_FILEMETA := buf[..32]];
      r := EmptyReply(Success);
    }

    method RequestPacket() returns (r: Reply)
      requires DownloadReadable(files)
      modifies this
      ensures Handled(r, files) == RequestPacketStep(old(files), blocked)
    {
      if DOWNLOAD_FILEPATH !in files || DOWNLOAD_FILEOFFSET !in files {
        return EmptyReply(ErrorNotDownloading);
      }
      if DOWNLOAD_FILEPATH in blocked || DOWNLOAD_FILEOFFSET in blocked {
        return EmptyReply(ErrorFileIO);
      }
      var path := PathOf(files[DOWNLOAD_FILEPATH]);
      var offset := FromLittleEndian(files[DOWNLOAD_FILEOFFSET][..8]);
      if path !in files {
        return EmptyReply(ErrorFileDoesntExist);
      }
      if path in blocked {
        return EmptyReply(ErrorFileIO);
      }
      var filelen := |files[path]|;
      if filelen <= offset {
        return EmptyReply(ErrorDownloadOver);
      }
      var packetlen := if filelen - offset > PACKET_SIZE then PACKET_SIZE else filelen - offset;
      r := Reply(Success, files[path][offset..offset + packetlen]);
      offset := (offset + packetlen) % UINT64_LIMIT;
      files := files[DOWNLOAD_FILEOFFSET := Overwrite(files[DOWNLOAD_FILEOFFSET], 0, LittleEndian(offset, 8))];
    }

    method SendPacket(buf: seq<uint8>) returns (r: Reply)
      modifies this
      ensures Handled(r, files) == SendPacketStep(old(files), blocked, buf)
    {
      if UPLOAD_FILEMETA !in files || UPLOAD_RECEIVED !in files {
        return EmptyReply(ErrorNotUploading);
      }
      if UPLOAD_RECEIVED in blocked {
        return EmptyReply(ErrorFileIO);
      }
      files := files[UPLOAD_RECEIVED := files[UPLOAD_RECEIVED] + buf];
      r := EmptyReply(Success);
    }

    method CancelUpload() returns (r: Reply)
      modifies this
      ensures Handled(r, files) == CancelUploadStep(old(files))
    {
      files := files - {UPLOAD_FILEMETA};
      files := files - {UPLOAD_RECEIVED};
      r := EmptyReply(Success);
    }

    method CancelDownload() returns (r: Reply)
      modifies this
      ensures Handled(r, files) == CancelDownloadStep(old(files))
    {
      files := files - {DOWNLOAD_FILEPATH};
      files := files - {DOWNLOAD_FILEOFFSET};
      r := EmptyReply(Success);
    }

    method FinalizeUpload(buf: seq<uint8>) returns (r: Reply)
      requires UploadReadable(files)
      modifies this
      ensures Handled(r, files) == FinalizeUploadStep(old(files), blocked, sha, buf)
    {
      if UPLOAD_FILEMETA !in files || UPLOAD_RECEIVED !in files {
        return EmptyReply(ErrorNotUploading);
      }
      if UPLOAD_FILEMETA in blocked || UPLOAD_RECEIVED in blocked {
        return EmptyReply(ErrorFileIO);
      }
      var shaSum := sha(files[UPLOAD_RECEIVED]);
      var shaSumGiven := files[UPLOAD_FILEMETA][..32];
      if !SameDigest(shaSum, shaSumGiven) {
        return EmptyReply(ErrorShasumMismatch);
      }
      var path := PathOf(buf);
      files := Rename(files, blocked, UPLOAD_RECEIVED, path);
      files := files - {UPLOAD_FILEMETA};
      r := EmptyReply(Success);
    }

    method RunCommand(command: uint8, buf: seq<uint8>) returns (r: Reply)
      requires 1 <= command <= 7 && |buf| >= 1
      requires Supported(CommandTable(command).value, files, buf[1..])
      modifies this
      ensures Handled(r, files) == RunCommandStep(command, old(files), blocked, sha, buf)
    {
      var payload := buf[1..];
      match CommandTable(command).value
      case StartDownload => r := StartDownload(payload);
      case StartUpload => r := StartUpload(payload);
      case RequestPacket => r := RequestPacket();
      case SendPacket => r := SendPacket(payload);
      case CancelUpload => r := CancelUpload();
      case CancelDownload => r := CancelDownload();
      case FinalizeUpload => r := FinalizeUpload(payload);
    }
  }
}
