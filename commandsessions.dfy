/**
 * Runs of several responder commands: a download from startDownload to
 * ERROR_DOWNLOAD_OVER, an upload from startUpload through sendPacket to
 * finalizeUpload, and what the cancel commands leave behind.
 */
module CommandSessions {
  import opened Bytes
  import opened Protocol
  import opened Digest
  import opened Chunking
  import opened PacketFiles
  import opened Commands

  /** k requestPacket commands in a row: their replies and the directory after them. */
  function Requests(files: Disk, blocked: set<string>, k: nat): (r: (seq<Reply>, Disk))
    requires DownloadReadable(files)
    ensures |r.0| == k && DownloadReadable(r.1)
  {
    if k == 0 then ([], files)
    else
      var step := RequestPacketStep(files, blocked);
      var rest := Requests(step.files, blocked, k - 1);
      ([step.reply] + rest.0, rest.1)
  }

  /** sendPacket with each of the packets in turn. */
  function Sends(files: Disk, blocked: set<string>, packets: seq<seq<uint8>>): (r: (seq<Reply>, Disk))
    ensures |r.0| == |packets|
  {
    if packets == [] then ([], files)
    else
      var step := SendPacketStep(files, blocked, packets[0]);
      var rest := Sends(step.files, blocked, packets[1..]);
      ([step.reply] + rest.0, rest.1)
  }

  /** A download of `path` is recorded at `offset`, and every file involved
      can be opened. */
  predicate DownloadAt(files: Disk, blocked: set<string>, path: string, offset: nat)
  {
    && DOWNLOAD_FILEPATH in files && DOWNLOAD_FILEOFFSET in files
    && PathOf(files[DOWNLOAD_FILEPATH]) == path
    && offset < UINT64_LIMIT && files[DOWNLOAD_FILEOFFSET] == LittleEndian(offset, 8)
    && path != DOWNLOAD_FILEOFFSET && path in files && |files[path]| < UINT64_LIMIT
    && DOWNLOAD_FILEPATH !in blocked && DOWNLOAD_FILEOFFSET !in blocked && path !in blocked
  }

  /** The offset record reads back as the recorded offset. */
  lemma OffsetReadsBack(files: Disk, blocked: set<string>, path: string, offset: nat)
    requires DownloadAt(files, blocked, path, offset)
    ensures DownloadReadable(files)
    ensures FromLittleEndian(files[DOWNLOAD_FILEOFFSET][..8]) == offset
  {
    Pow256Eight();
    assert files[DOWNLOAD_FILEOFFSET][..8] == LittleEndian(offset, 8);
    DecodeEncode(offset, 8);
  }

  /** At the offset of packet j, requestPacket reads packet j. */
  lemma ReadPacketAt(files: Disk, blocked: set<string>, path: string, j: nat)
    requires path in files && j < PacketCount(|files[path]|)
    requires DownloadAt(files, blocked, path, PacketOffset(j))
    ensures DownloadReadable(files)
    ensures ReadNextPacket(files, blocked)
      == NextPacket(Packet(files[path], j), PacketOffset(j) + PacketLen(|files[path]|, j))
  {
    OffsetReadsBack(files, blocked, path, PacketOffset(j));
  }

  /** ... and records the offset after it. */
  lemma RequestPacketAt(files: Disk, blocked: set<string>, path: string, j: nat)
    requires path in files && j < PacketCount(|files[path]|)
    requires DownloadAt(files, blocked, path, PacketOffset(j))
    ensures DownloadReadable(files)
    ensures var after := PacketOffset(j) + PacketLen(|files[path]|, j);
      RequestPacketStep(files, blocked)
      == Handled(Reply(Success, Packet(files[path], j)), files[DOWNLOAD_FILEOFFSET := LittleEndian(after, 8)])
      && DownloadAt(files[DOWNLOAD_FILEOFFSET := LittleEndian(after, 8)], blocked, path, after)
  {
    ReadPacketAt(files, blocked, path, j);
    var after := PacketOffset(j) + PacketLen(|files[path]|, j);
    RequestPacketReads(files, blocked, Packet(files[path], j), after);
    MoveOffset(files, blocked, path, PacketOffset(j), after);
  }

  /** A packet read at an offset below 2^64 is replied with, and the offset
      after it replaces the whole 8-byte record. */
  lemma RequestPacketReads(files: Disk, blocked: set<string>, payload: seq<uint8>, after: nat)
    requires DownloadReadable(files) && ReadNextPacket(files, blocked) == NextPacket(payload, after)
    requires |files[DOWNLOAD_FILEOFFSET]| == 8 && after < UINT64_LIMIT
    ensures RequestPacketStep(files, blocked)
      == Handled(Reply(Success, payload), files[DOWNLOAD_FILEOFFSET := LittleEndian(after, 8)])
  {
    assert after % UINT64_LIMIT == after;
    OverwriteWhole(files[DOWNLOAD_FILEOFFSET], LittleEndian(after, 8));
  }

  /** Rewriting the offset record moves the recorded download and nothing
      else. */
  lemma MoveOffset(files: Disk, blocked: set<string>, path: string, offset: nat, after: nat)
    requires DownloadAt(files, blocked, path, offset) && after < UINT64_LIMIT
    ensures DownloadAt(files[DOWNLOAD_FILEOFFSET := LittleEndian(after, 8)], blocked, path, after)
  {
    assert DOWNLOAD_FILEPATH[13] != DOWNLOAD_FILEOFFSET[13];
  }

  /** The replies a download sends from packet j of `data` on: each packet
      in order, with status SUCCESS. */
  function PacketReplies(data: seq<uint8>, j: nat): (r: seq<Reply>)
    ensures j <= PacketCount(|data|) ==> |r| == PacketCount(|data|) - j
    decreases PacketCount(|data|) - j
  {
    if j >= PacketCount(|data|) then [] else [Reply(Success, Packet(data, j))] + PacketReplies(data, j + 1)
  }

  /** Reply i of those is packet j + i. */
  lemma {:induction false} PacketRepliesAt(data: seq<uint8>, j: nat, i: nat)
    requires j + i < PacketCount(|data|)
    ensures PacketReplies(data, j)[i] == Reply(Success, Packet(data, j + i))
    decreases i
  {
    var n := PacketCount(|data|);
    assert PacketReplies(data, j) == [Reply(Success, Packet(data, j))] + PacketReplies(data, j + 1);
    if i > 0 {
      PacketRepliesAt(data, j + 1, i - 1);
      assert PacketReplies(data, j)[i] == PacketReplies(data, j + 1)[i - 1];
    }
  }

  /** At the offset of packet j, k > 0 requests are packet j's reply and
      then k - 1 requests from the offset after it. */
  lemma RequestsAt(files: Disk, blocked: set<string>, path: string, j: nat, k: nat)
    requires path in files && j < PacketCount(|files[path]|) && k > 0
    requires DownloadAt(files, blocked, path, PacketOffset(j))
    ensures var after := PacketOffset(j) + PacketLen(|files[path]|, j);
      var next := files[DOWNLOAD_FILEOFFSET := LittleEndian(after, 8)];
      && DownloadAt(next, blocked, path, after) && next[path] == files[path]
      && Requests(files, blocked, k)
         == ([Reply(Success, Packet(files[path], j))] + Requests(next, blocked, k - 1).0, Requests(next, blocked, k - 1).1)
  {
    RequestPacketAt(files, blocked, path, j);
  }

  /** Writing a record twice keeps the second value. */
  lemma Overwritten(files: Disk, path: string, first: seq<uint8>, second: seq<uint8>)
    ensures files[path := first][path := second] == files[path := second]
  {
  }

  /** From packet j of the recorded file on, with k packets left, each
      requestPacket returns the next packet, and the last one leaves the
      offset at the file's length. */
  lemma {:induction false} DownloadFrom(files: Disk, blocked: set<string>, path: string, j: nat, k: nat)
    requires path in files && j < PacketCount(|files[path]|) && k == PacketCount(|files[path]|) - j
    requires DownloadAt(files, blocked, path, PacketOffset(j))
    ensures Requests(files, blocked, k)
      == (PacketReplies(files[path], j), files[DOWNLOAD_FILEOFFSET := LittleEndian(|files[path]|, 8)])
    decreases k, 1
  {
    var data := files[path];
    RequestsAt(files, blocked, path, j, k);
    DownloadTail(files, blocked, path, j, k);
    assert PacketReplies(data, j) == [Reply(Success, Packet(data, j))] + PacketReplies(data, j + 1);
  }

  /** The requests after packet j's return the packets after it and leave the
      offset at the file's length. */
  lemma {:induction false} DownloadTail(files: Disk, blocked: set<string>, path: string, j: nat, k: nat)
    requires path in files && j < PacketCount(|files[path]|) && k == PacketCount(|files[path]|) - j
    requires DownloadAt(files, blocked, path, PacketOffset(j))
    ensures var after := PacketOffset(j) + PacketLen(|files[path]|, j);
      var next := files[DOWNLOAD_FILEOFFSET := LittleEndian(after, 8)];
      && DownloadReadable(next)
      && Requests(next, blocked, k - 1)
         == (PacketReplies(files[path], j + 1), files[DOWNLOAD_FILEOFFSET := LittleEndian(|files[path]|, 8)])
    decreases k, 0
  {
    var data := files[path];
    var after := PacketOffset(j) + PacketLen(|data|, j);
    var next := files[DOWNLOAD_FILEOFFSET := LittleEndian(after, 8)];
    NextDownload(files, blocked, path, j);
    if k > 1 {
      DownloadFrom(next, blocked, path, j + 1, k - 1);
    } else {
      LastRequest(files, blocked, path, j, after);
    }
  }

  /** After packet j the recorded download is at packet j + 1, or at the
      file's length after the last packet; the file itself is unchanged. */
  lemma NextDownload(files: Disk, blocked: set<string>, path: string, j: nat)
    requires path in files && j < PacketCount(|files[path]|)
    requires DownloadAt(files, blocked, path, PacketOffset(j))
    ensures var after := PacketOffset(j) + PacketLen(|files[path]|, j);
      var next := files[DOWNLOAD_FILEOFFSET := LittleEndian(after, 8)];
      && next[path] == files[path]
      && next[DOWNLOAD_FILEOFFSET := LittleEndian(|files[path]|, 8)] == files[DOWNLOAD_FILEOFFSET := LittleEndian(|files[path]|, 8)]
      && DownloadReadable(next)
      && (j + 1 < PacketCount(|files[path]|) ==> DownloadAt(next, blocked, path, PacketOffset(j + 1)))
      && (j + 1 == PacketCount(|files[path]|) ==> after == |files[path]|)
  {
    var after := PacketOffset(j) + PacketLen(|files[path]|, j);
    NextPacketOffset(|files[path]|, j);
    MoveOffset(files, blocked, path, PacketOffset(j), after);
    Overwritten(files, DOWNLOAD_FILEOFFSET, LittleEndian(after, 8), LittleEndian(|files[path]|, 8));
  }

  /** After the last packet nothing is left to request, and the offset is
      already the file's length. */
  lemma LastRequest(files: Disk, blocked: set<string>, path: string, j: nat, after: nat)
    requires path in files && j + 1 == PacketCount(|files[path]|) && after == |files[path]|
    requires DownloadReadable(files[DOWNLOAD_FILEOFFSET := LittleEndian(after, 8)])
    ensures var next := files[DOWNLOAD_FILEOFFSET := LittleEndian(after, 8)];
      Requests(next, blocked, 0) == (PacketReplies(files[path], j + 1), next)
  {
  }

  /** Once the offset has reached the file's length, requestPacket answers
      ERROR_DOWNLOAD_OVER and changes nothing. */
  lemma DownloadOver(files: Disk, blocked: set<string>, path: string)
    requires path in files && DownloadAt(files, blocked, path, |files[path]|)
    ensures DownloadReadable(files)
    ensures RequestPacketStep(files, blocked) == Handled(EmptyReply(ErrorDownloadOver), files)
  {
    OffsetReadsBack(files, blocked, path, |files[path]|);
  }

  /** A successful startDownload records the requested file at offset 0. */
  lemma StartedDownloadAt(files: Disk, blocked: set<string>, sha: Hasher, buf: seq<uint8>)
    requires StartDownloadStep(files, blocked, sha, buf).reply.status == Success
    requires |files[PathOf(buf)]| < UINT64_LIMIT
    ensures var started := StartDownloadStep(files, blocked, sha, buf).files;
      && PathOf(buf) in started && started[PathOf(buf)] == files[PathOf(buf)]
      && DownloadAt(started, blocked, PathOf(buf), 0)
  {
    CStringOfCString(buf);
    Pow256Eight();
  }

  /** From offset 0, the requests return every packet and leave the download
      recorded at the file's length. */
  lemma DownloadAll(files: Disk, blocked: set<string>, path: string)
    requires path in files && DownloadAt(files, blocked, path, 0)
    ensures var r := Requests(files, blocked, PacketCount(|files[path]|));
      && r.0 == PacketReplies(files[path], 0)
      && path in r.1 && r.1[path] == files[path]
      && DownloadAt(r.1, blocked, path, |files[path]|)
  {
    var data := files[path];
    if PacketCount(|data|) == 0 {
      assert |data| == 0;
    } else {
      assert PacketOffset(0) == 0;
      DownloadFrom(files, blocked, path, 0, PacketCount(|files[path]|));
    }
  }

  /** The payloads of some replies, in order. */
  function Payloads(replies: seq<Reply>): (p: seq<seq<uint8>>)
    ensures |p| == |replies| && forall i :: 0 <= i < |p| ==> p[i] == replies[i].payload
  {
    seq(|replies|, i requires 0 <= i < |replies| => replies[i].payload)
  }

  /** The payloads of a download's replies are the file's packets. */
  lemma PacketRepliesCarryPackets(data: seq<uint8>)
    ensures var r := PacketReplies(data, 0);
      && |r| == PacketCount(|data|)
      && (forall i :: 0 <= i < |r| ==> r[i] == Reply(Success, Packets(data)[i]))
      && Flatten(Payloads(r)) == data
  {
    var r := PacketReplies(data, 0);
    forall i | 0 <= i < |r|
      ensures r[i] == Reply(Success, Packets(data)[i])
    {
      PacketRepliesAt(data, 0, i);
    }
    assert Payloads(r) == Packets(data);
    PacketsReassemble(data);
  }

  /**
   * A whole download: after a successful startDownload of a file of n
   * packets, n requestPacket commands return its packets in order, which
   * put together are the file, and the next one answers
   * ERROR_DOWNLOAD_OVER.
   */
  lemma DownloadSession(files: Disk, blocked: set<string>, sha: Hasher, buf: seq<uint8>)
    requires StartDownloadStep(files, blocked, sha, buf).reply.status == Success
    requires |files[PathOf(buf)]| < UINT64_LIMIT
    ensures var data := files[PathOf(buf)];
      var started := StartDownloadStep(files, blocked, sha, buf).files;
      DownloadReadable(started)
      && var r := Requests(started, blocked, PacketCount(|data|));
         && (forall i :: 0 <= i < PacketCount(|data|) ==> r.0[i] == Reply(Success, Packets(data)[i]))
         && Flatten(Payloads(r.0)) == data
         && RequestPacketStep(r.1, blocked).reply == EmptyReply(ErrorDownloadOver)
  {
    var path := PathOf(buf);
    var started := StartDownloadStep(files, blocked, sha, buf).files;
    StartedDownloadAt(files, blocked, sha, buf);
    OffsetReadsBack(started, blocked, path, 0);
    DownloadAll(started, blocked, path);
    PacketRepliesCarryPackets(files[path]);
    var r := Requests(started, blocked, PacketCount(|files[path]|));
    DownloadOver(r.1, blocked, path);
  }

  /**
   * The finding at the offset update, as written: after a successful
   * startDownload, requestPacket returns the first packet and leaves the
   * offset record at 0, so every later request returns the first packet
   * again; with the intended update the second request returns the second
   * packet.
   */
  lemma RequestPacketAsWrittenRepeats(files: Disk, blocked: set<string>, sha: Hasher, buf: seq<uint8>)
    requires StartDownloadStep(files, blocked, sha, buf).reply.status == Success
    requires PACKET_SIZE < |files[PathOf(buf)]| < UINT64_LIMIT
    ensures var data := files[PathOf(buf)];
      var started := StartDownloadStep(files, blocked, sha, buf).files;
      DownloadReadable(started)
      && RequestPacketStepAsWritten(started, blocked) == Handled(Reply(Success, Packet(data, 0)), started)
      && var once := RequestPacketStep(started, blocked).files;
         RequestPacketStep(once, blocked).reply == Reply(Success, Packet(data, 1))
  {
    var path := PathOf(buf);
    var data := files[path];
    var started := StartDownloadStep(files, blocked, sha, buf).files;
    StartedDownloadAt(files, blocked, sha, buf);
    PacketCountIsCeiling(|data|);
    assert PacketOffset(0) == 0;
    DownloadFrom(started, blocked, path, 0, PacketCount(|started[path]|));
    var r := Requests(started, blocked, PacketCount(|data|));
    assert r.0[0] == Reply(Success, Packet(data, 0));
    assert r.0[1] == Reply(Success, Packet(data, 1));
  }

  /** While an upload is recorded, each sendPacket succeeds and appends its
      payload, so the received file grows by the packets put together. */
  lemma {:induction false} SendsAppend(files: Disk, blocked: set<string>, packets: seq<seq<uint8>>)
    requires UPLOAD_FILEMETA in files && UPLOAD_RECEIVED in files && UPLOAD_RECEIVED !in blocked
    ensures var r := Sends(files, blocked, packets);
      && (forall i :: 0 <= i < |packets| ==> r.0[i] == EmptyReply(Success))
      && r.1 == files[UPLOAD_RECEIVED := files[UPLOAD_RECEIVED] + Flatten(packets)]
    decreases |packets|
  {
    if packets == [] {
      assert Flatten(packets) == [];
      assert files[UPLOAD_RECEIVED] + [] == files[UPLOAD_RECEIVED];
      assert files[UPLOAD_RECEIVED := files[UPLOAD_RECEIVED]] == files;
    } else {
      var next := files[UPLOAD_RECEIVED := files[UPLOAD_RECEIVED] + packets[0]];
      SendsAppend(next, blocked, packets[1..]);
      FlattenCons(packets);
      assert files[UPLOAD_RECEIVED] + packets[0] + Flatten(packets[1..]) == files[UPLOAD_RECEIVED] + Flatten(packets);
    }
  }

  /**
   * A whole upload: startUpload with the digest, sendPacket with each
   * packet, then finalizeUpload. When the digest of the bytes put together
   * matches, the file appears at the given path and both upload records are
   * gone; otherwise the reply is ERROR_SHASUM_MISMATCH and the records stay.
   */
  lemma UploadSession(files: Disk, blocked: set<string>, sha: Hasher, meta: seq<uint8>,
                      packets: seq<seq<uint8>>, buf: seq<uint8>)
    requires |meta| >= 32
    requires StartUploadStep(files, blocked, meta).reply.status == Success
    ensures var started := StartUploadStep(files, blocked, meta).files;
      var sent := Sends(started, blocked, packets);
      var data := Flatten(packets);
      && (forall i :: 0 <= i < |packets| ==> sent.0[i] == EmptyReply(Success))
      && sent.1 == started[UPLOAD_RECEIVED := data]
      && UploadReadable(sent.1)
      && var done := FinalizeUploadStep(sent.1, blocked, sha, buf);
         && (sha(data) == meta[..32] ==> done.reply == EmptyReply(Success))
         && (sha(data) == meta[..32] && PathOf(buf) !in blocked
             && PathOf(buf) != UPLOAD_FILEMETA && PathOf(buf) != UPLOAD_RECEIVED ==>
               done.files == files[PathOf(buf) := data])
         && (sha(data) != meta[..32] ==> done == Handled(EmptyReply(ErrorShasumMismatch), sent.1))
  {
    var data := Flatten(packets);
    var started := StartUploadStep(files, blocked, meta).files;
    assert UPLOAD_FILEMETA[7] != UPLOAD_RECEIVED[7];
    SendsAppend(started, blocked, packets);
    assert [] + data == data;
    var sent := Sends(started, blocked, packets);
    Overwritten(files[UPLOAD_FILEMETA := meta[..32]], UPLOAD_RECEIVED, [], data);
    assert sent.1 == files[UPLOAD_FILEMETA := meta[..32]][UPLOAD_RECEIVED := data];
    if sha(data) == meta[..32] && PathOf(buf) !in blocked
       && PathOf(buf) != UPLOAD_FILEMETA && PathOf(buf) != UPLOAD_RECEIVED {
      FinalizeReceived(files, blocked, sha, meta[..32], data, buf);
    }
  }

  /** finalizeUpload over a fresh upload record moves the received bytes to
      the path and leaves the rest of the directory as it was. */
  lemma FinalizeReceived(files: Disk, blocked: set<string>, sha: Hasher, digest: seq<uint8>,
                         data: seq<uint8>, buf: seq<uint8>)
    requires |digest| == 32 && sha(data) == digest
    requires UPLOAD_FILEMETA !in files && UPLOAD_RECEIVED !in files
    requires UPLOAD_FILEMETA !in blocked && UPLOAD_RECEIVED !in blocked
    requires PathOf(buf) !in blocked && PathOf(buf) != UPLOAD_FILEMETA && PathOf(buf) != UPLOAD_RECEIVED
    ensures var sent := files[UPLOAD_FILEMETA := digest][UPLOAD_RECEIVED := data];
      UploadReadable(sent) && FinalizeUploadStep(sent, blocked, sha, buf).files == files[PathOf(buf) := data]
  {
    var path := PathOf(buf);
    var sent := files[UPLOAD_FILEMETA := digest][UPLOAD_RECEIVED := data];
    assert UPLOAD_FILEMETA[7] != UPLOAD_RECEIVED[7];
    assert digest[..32] == digest;
    var renamed := Rename(sent, blocked, UPLOAD_RECEIVED, path);
    var done := renamed - {UPLOAD_FILEMETA};
    assert FinalizeUploadStep(sent, blocked, sha, buf).files == done;
    forall p
      ensures p in done <==> p in files[path := data]
    {
    }
    forall p | p in done
      ensures done[p] == files[path := data][p]
    {
    }
  }

  /** A finalizeUpload that succeeded removed the digest record, so the next
      one answers ERROR_NOT_UPLOADING. */
  lemma FinalizeOnce(files: Disk, blocked: set<string>, sha: Hasher, buf: seq<uint8>, again: seq<uint8>)
    requires UploadReadable(files)
    requires FinalizeUploadStep(files, blocked, sha, buf).reply.status == Success
    ensures var done := FinalizeUploadStep(files, blocked, sha, buf).files;
      UploadReadable(done) && FinalizeUploadStep(done, blocked, sha, again) == Handled(EmptyReply(ErrorNotUploading), done)
  {
  }

  /** cancelUpload is idempotent, and after it no upload is recorded. */
  lemma CancelUploadEnds(files: Disk, blocked: set<string>, sha: Hasher, buf: seq<uint8>)
    ensures var cancelled := CancelUploadStep(files).files;
      && CancelUploadStep(cancelled) == CancelUploadStep(files)
      && SendPacketStep(cancelled, blocked, buf) == Handled(EmptyReply(ErrorNotUploading), cancelled)
      && UploadReadable(cancelled)
      && FinalizeUploadStep(cancelled, blocked, sha, buf) == Handled(EmptyReply(ErrorNotUploading), cancelled)
  {
    var cancelled := CancelUploadStep(files).files;
    assert cancelled - {UPLOAD_FILEMETA, UPLOAD_RECEIVED} == cancelled;
  }

  /** cancelDownload is idempotent, and after it no download is recorded. */
  lemma CancelDownloadEnds(files: Disk, blocked: set<string>)
    ensures var cancelled := CancelDownloadStep(files).files;
      && CancelDownloadStep(cancelled) == CancelDownloadStep(files)
      && DownloadReadable(cancelled)
      && RequestPacketStep(cancelled, blocked) == Handled(EmptyReply(ErrorNotDownloading), cancelled)
  {
    var cancelled := CancelDownloadStep(files).files;
    assert cancelled - {DOWNLOAD_FILEPATH, DOWNLOAD_FILEOFFSET} == cancelled;
  }
}
