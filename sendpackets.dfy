/**
 * send-packets: the sender over a directory of packet files. It parses the
 * digest argument, reads the packet metadata from `<dir>.meta`, writes the
 * start frame, runs the stop-and-wait loop over the packet files
 * `<dir>/0.pkt`, `<dir>/1.pkt`, ..., and closes with TRANSFER_END.
 *
 * The packet files do not change while the loop runs, so the frames the loop
 * builds round by round are computed up front (LoadPackets): the first packet
 * file that is missing or too long ends the transfer when the loop reaches
 * it, before anything of that packet is written.
 */
module SendPackets {
  import opened Bytes
  import opened Protocol
  import opened Digest
  import opened Decimal
  import opened Codec
  import opened PacketFiles
  import opened StopAndWait

  const STORE_DIR: string := "../packet-test"

  /** The digest argument is 64 characters, each pair of them a hex byte. */
  predicate ValidShaArg(arg: string)
  {
    |arg| == 64 && forall i :: 0 <= i < 32 ==> ParseHexPair(arg[2 * i], arg[2 * i + 1]).Some?
  }

  /** The digest a valid argument denotes. */
  function ShaOfArg(arg: string): (d: Digest)
    requires ValidShaArg(arg)
    ensures forall i :: 0 <= i < 32 ==> ParseHexPair(arg[2 * i], arg[2 * i + 1]) == Some(d[i])
  {
    seq(32, i requires 0 <= i < 32 => ParseHexPair(arg[2 * i], arg[2 * i + 1]).value)
  }

  /** The packet files i, i + 1, ... up to n or up to the first one that is
      missing or longer than UINT16_MAX, and whether all n were there. */
  function LoadPackets(disk: Disk, dir: string, i: nat, n: nat): (r: (seq<seq<uint8>>, Result<()>))
    ensures i <= n ==> i + |r.0| <= n
    ensures r.1.Ok? <==> i + |r.0| >= n
    ensures r.1.Fail? ==> r.1.why == MissingPacketFile || r.1.why == PacketTooLong
    ensures forall j :: 0 <= j < |r.0| ==> |r.0[j]| <= UINT16_MAX
    decreases n - i
  {
    if i >= n then ([], Ok(()))
    else if PacketPath(dir, i) !in disk then ([], Fail(MissingPacketFile))
    else
      var file := disk[PacketPath(dir, i)];
      if |file| > UINT16_MAX then ([], Fail(PacketTooLong))
      else
        var r := LoadPackets(disk, dir, i + 1, n);
        ([file] + r.0, r.1)
  }

  /** Loaded packet k - i is the contents of packet file k. */
  lemma {:induction false} LoadPacketsContents(disk: Disk, dir: string, i: nat, n: nat)
    ensures var r := LoadPackets(disk, dir, i, n);
      forall k :: i <= k < i + |r.0| ==> PacketPath(dir, k) in disk && r.0[k - i] == disk[PacketPath(dir, k)]
    decreases n - i
  {
    var r := LoadPackets(disk, dir, i, n);
    if i < n && PacketPath(dir, i) in disk && |disk[PacketPath(dir, i)]| <= UINT16_MAX {
      LoadPacketsContents(disk, dir, i + 1, n);
      var later := LoadPackets(disk, dir, i + 1, n);
      assert r.0 == [disk[PacketPath(dir, i)]] + later.0;
    }
  }

  /** The first packet not loaded is missing (MissingPacketFile) or longer
      than UINT16_MAX (PacketTooLong). */
  lemma {:induction false} LoadPacketsStop(disk: Disk, dir: string, i: nat, n: nat)
    ensures var r := LoadPackets(disk, dir, i, n);
      && (r.1 == Fail(MissingPacketFile) <==> r.1.Fail? && PacketPath(dir, i + |r.0|) !in disk)
      && (r.1 == Fail(PacketTooLong) <==>
            r.1.Fail? && PacketPath(dir, i + |r.0|) in disk && |disk[PacketPath(dir, i + |r.0|)]| > UINT16_MAX)
    decreases n - i
  {
    if i < n && PacketPath(dir, i) in disk && |disk[PacketPath(dir, i)]| <= UINT16_MAX {
      LoadPacketsStop(disk, dir, i + 1, n);
    }
  }

  /** The directory name packetize derives from a digest is a valid digest
      argument, and it denotes that digest. */
  lemma ShaArgOfHexText(d: Digest)
    ensures ValidShaArg(HexText(d)) && ShaOfArg(HexText(d)) == d
  {
    forall i | 0 <= i < 32
      ensures ParseHexPair(HexText(d)[2 * i], HexText(d)[2 * i + 1]) == Some(d[i])
    {
      HexTextAt(d, i);
      ParseHexPairOfHexPair(d[i]);
    }
  }

  /** A directory holding packets i .. n - 1, each at most UINT16_MAX bytes,
      loads all of them and nothing else. */
  lemma {:induction false} LoadPacketsOfStore(disk: Disk, dir: string, i: nat, n: nat, packets: seq<seq<uint8>>)
    requires i + |packets| == n
    requires forall j :: 0 <= j < |packets| ==> |packets[j]| <= UINT16_MAX
    requires forall k :: i <= k < n ==> PacketPath(dir, k) in disk && disk[PacketPath(dir, k)] == packets[k - i]
    ensures LoadPackets(disk, dir, i, n) == (packets, Ok(()))
    decreases |packets|
  {
    if packets != [] {
      LoadPacketsOfStore(disk, dir, i + 1, n, packets[1..]);
      assert packets == [disk[PacketPath(dir, i)]] + packets[1..];
    }
  }

  /** The bytes and outcome of the main program after the metadata was read:
      the start frame, the loop over the loaded frames, and TRANSFER_END when
      every packet was acknowledged. */
  function Transfer(h: StartHeader, frames: seq<seq<uint8>>, load: Result<()>, replies: seq<uint8>): (r: (seq<uint8>, Result<()>))
    ensures r.1.Ok? <==> load.Ok? && SendFrom(SendPacketsSender, frames, 0, replies).1.Ok?
    ensures r.1.Ok? ==> r.0 == StartFrame(h) + SendFrom(SendPacketsSender, frames, 0, replies).0 + [END]
  {
    var (sent, result) := SendFrom(SendPacketsSender, frames, 0, replies);
    if result.Fail? then (StartFrame(h) + sent, result)
    else if load.Fail? then (StartFrame(h) + sent, load)
    else (StartFrame(h) + sent + [END], Ok(()))
  }

  /** main: `arg` is the digest argument, `disk` the packet store, `replies`
      the bytes the receiver sends back. */
  method Send(arg: string, crc: Checksum, disk: Disk, replies: seq<uint8>)
    returns (wire: seq<uint8>, outcome: Result<()>)
    ensures !ValidShaArg(arg) ==> wire == [] && outcome == Fail(BadDigestArgument)
    ensures ValidShaArg(arg) && STORE_DIR + "/" + arg + ".meta" !in disk ==>
      wire == [] && outcome == Fail(FileError)
    ensures ValidShaArg(arg) && STORE_DIR + "/" + arg + ".meta" in disk ==>
      var dir := STORE_DIR + "/" + arg;
      var meta := ReadPacketMeta(AsText(disk[dir + ".meta"]));
      if meta.MetaFailed? then wire == [] && outcome == Fail(BadMetadata)
      else
        var load := LoadPackets(disk, dir, 0, meta.packetNum);
        (wire, outcome) == Transfer(StartHeader(meta.fileSize, meta.packetNum, ShaOfArg(arg)),
                                    PacketFrames(crc, load.0), load.1, replies)
  {
    var sha := ParseShaArg(arg);
    if sha.None? {
      return [], Fail(BadDigestArgument);
    }
    assert sha.value == ShaOfArg(arg);
    var pktdir := STORE_DIR + "/" + arg;
    var metapath := pktdir + ".meta";
    if metapath !in disk {
      return [], Fail(FileError);
    }
    var meta := ReadPacketMeta(AsText(disk[metapath]));
    if meta.MetaFailed? {
      return [], Fail(BadMetadata);
    }
    var header := StartFrame(StartHeader(meta.fileSize, meta.packetNum, sha.value));
    var packets, load := LoadPackets(disk, pktdir, 0, meta.packetNum).0, LoadPackets(disk, pktdir, 0, meta.packetNum).1;
    var frames := PacketFrames(crc, packets);
    var sent, result := Run(SendPacketsSender, frames, 0, replies);
    wire := header + sent;
    if result.Fail? {
      return wire, result;
    }
    if load.Fail? {
      return wire, load;
    }
    wire := wire + [END];
    outcome := Ok(());
  }
}
