/**
 * packetize: cuts a file into packet files for send-packets. It names a
 * directory `../packet-test/<digest as hex>` after the file's SHA-256 digest,
 * creates it, writes `<that directory>.meta` holding the file length and the
 * packet count, and then writes packet i of the file to `<dir>/<i>.pkt`,
 * i = 0, 1, ..., stopping at the first file that cannot be opened.
 *
 * The directory tree is a map from path to contents; `blocked` is the set of
 * paths that cannot be created (mkdir or fopen fails there).
 */
module Packetize {
  import opened Bytes
  import opened Protocol
  import opened Digest
  import opened Decimal
  import opened Chunking
  import opened Codec
  import opened PacketFiles

  const STORE_DIR: string := "../packet-test"

  /** The directory a file's packets go to. */
  function PacketDir(shaSum: Digest): (d: string)
    ensures |d| == |STORE_DIR| + 65 && d[..|STORE_DIR| + 1] == STORE_DIR + "/"
    ensures forall k :: |STORE_DIR| + 1 <= k < |d| ==> IsLowerHex(d[k])
  {
    HexTextAlphabet(shaSum);
    STORE_DIR + "/" + HexText(shaSum)
  }

  /** The metadata file `"%lu\n%lu\n"` of the length and the packet count. */
  function PacketMeta(len: nat): (b: seq<uint8>)
    ensures AsText(b) == PacketMetaText(len, PacketCount(len))
  {
    PacketMetaIsByteText(len, PacketCount(len));
    AsTextOfTextBytes(PacketMetaText(len, PacketCount(len)));
    TextBytes(PacketMetaText(len, PacketCount(len)))
  }

  /** The first packet index from i on, below n, whose file cannot be
      created; n when there is none. */
  function FirstBlocked(dir: string, blocked: set<string>, i: nat, n: nat): (k: nat)
    requires i <= n
    ensures i <= k <= n
    ensures forall j :: i <= j < k ==> PacketPath(dir, j) !in blocked
    ensures k < n ==> PacketPath(dir, k) in blocked
    decreases n - i
  {
    if i == n || PacketPath(dir, i) in blocked then i else FirstBlocked(dir, blocked, i + 1, n)
  }

  /** main from reading the file on: `data` is the file's contents, `sha` the
      digest function. With the directory and the metadata file created, the
      packets before the first blocked one are written, each to its own file;
      all of them when none is blocked. */
  method Packetize(data: seq<uint8>, sha: Hasher, blocked: set<string>, disk: Disk)
    returns (store: Disk, outcome: Result<()>)
    ensures PacketDir(sha(data)) in blocked || PacketDir(sha(data)) + ".meta" in blocked ==>
      store == disk && outcome == Fail(FileError)
    ensures PacketDir(sha(data)) !in blocked && PacketDir(sha(data)) + ".meta" !in blocked ==>
      var dir := PacketDir(sha(data));
      var k := FirstBlocked(dir, blocked, 0, PacketCount(|data|));
      && store == disk[dir + ".meta" := PacketMeta(|data|)] + Written(dir, 0, Packets(data)[..k])
      && (outcome.Ok? <==> k == PacketCount(|data|))
      && (outcome.Fail? ==> outcome.why == FileError)
  {
    var shaSum := sha(data);
    var shaStr := new char[65];
    Sha256Str(shaStr, shaSum);
    var dirPath := STORE_DIR + "/" + shaStr[..64];
    if dirPath in blocked {
      return disk, Fail(FileError);
    }
    var metaPath := dirPath + ".meta";
    if metaPath in blocked {
      return disk, Fail(FileError);
    }
    store, outcome := WritePackets(data, dirPath, blocked, disk[metaPath := PacketMeta(|data|)]);
  }

  /** The splitting loop: packet i goes to `<dir>/<i>.pkt`, until the first
      packet file that cannot be opened. */
  method WritePackets(data: seq<uint8>, dir: string, blocked: set<string>, base: Disk)
    returns (store: Disk, outcome: Result<()>)
    ensures var k := FirstBlocked(dir, blocked, 0, PacketCount(|data|));
      && store == base + Written(dir, 0, Packets(data)[..k])
      && (outcome.Ok? <==> k == PacketCount(|data|))
      && (outcome.Fail? ==> outcome.why == FileError)
  {
    var numPackets := PacketCount(|data|);
    store := base;
    ghost var packets := Packets(data);
    ghost var k := FirstBlocked(dir, blocked, 0, numPackets);
    assert packets[..0] == [];
    for i := 0 to numPackets
      invariant i <= k
      invariant store == base + Written(dir, 0, packets[..i])
    {
      var pktPath := PacketPath(dir, i);
      if pktPath in blocked {
        assert k == i;
        return store, Fail(FileError);
      }
      var slice := Packet(data, i);
      assert slice == packets[i];
      WrittenStep(base, dir, packets, i);
      store := store[pktPath := slice];
    }
    assert packets[..numPackets] == packets;
    outcome := Ok(());
  }
}
