/**
 * The chunking arithmetic shared by packetize and send-file: a file of `len`
 * bytes is cut into ceil(len / PACKET_SIZE) packets, packet i starting at
 * byte i * PACKET_SIZE and holding min(PACKET_SIZE, len - i * PACKET_SIZE)
 * bytes.
 */
module Chunking {
  import opened Bytes
  import opened Protocol

  /** `len / PACKET_SIZE + (len % PACKET_SIZE == 0 ? 0 : 1)`. */
  function PacketCount(len: nat): nat
  {
    len / PACKET_SIZE + (if len % PACKET_SIZE == 0 then 0 else 1)
  }

  /** The packet count is the ceiling of len / PACKET_SIZE: the fewest packets
      of at most PACKET_SIZE bytes that hold the file. */
  lemma PacketCountIsCeiling(len: nat)
    ensures PacketCount(len) * PACKET_SIZE >= len
    ensures PacketCount(len) > 0 ==> (PacketCount(len) - 1) * PACKET_SIZE < len
    ensures PacketCount(len) == 0 <==> len == 0
  {
  }

  /** Offset of packet i: `i * PACKET_SIZE`. */
  function PacketOffset(i: nat): (o: nat)
    ensures o % PACKET_SIZE == 0 && o / PACKET_SIZE == i
  {
    i * PACKET_SIZE
  }

  /** There are never more packets than bytes. */
  lemma PacketCountAtMostLength(len: nat)
    ensures PacketCount(len) <= len
  {
    PacketCountIsCeiling(len);
    if PacketCount(len) > 0 {
      assert (PacketCount(len) - 1) * PACKET_SIZE >= PacketCount(len) - 1;
    }
  }

  /** Packet i + 1 starts where packet i ends, and the last packet ends at
      the end of the file. */
  lemma NextPacketOffset(len: nat, i: nat)
    requires i < PacketCount(len)
    ensures i + 1 < PacketCount(len) ==> PacketOffset(i) + PacketLen(len, i) == PacketOffset(i + 1)
    ensures i + 1 == PacketCount(len) ==> PacketOffset(i) + PacketLen(len, i) == len
  {
  }

  /** `len - offset > PACKET_SIZE ? PACKET_SIZE : len - offset` for packet i. */
  function PacketLen(len: nat, i: nat): (n: nat)
    requires i < PacketCount(len)
    ensures 1 <= n <= PACKET_SIZE
    ensures PacketOffset(i) + n <= len
    ensures i + 1 < PacketCount(len) ==> n == PACKET_SIZE
    ensures i + 1 == PacketCount(len) ==> PacketOffset(i) + n == len
  {
    PacketCountIsCeiling(len);
    if len - PacketOffset(i) > PACKET_SIZE then PACKET_SIZE else len - PacketOffset(i)
  }

  /** Packet i of a file: `data[i * PACKET_SIZE .. i * PACKET_SIZE + toWrite]`. */
  function Packet(data: seq<uint8>, i: nat): (p: seq<uint8>)
    requires i < PacketCount(|data|)
    ensures |p| == PacketLen(|data|, i)
  {
    data[PacketOffset(i)..PacketOffset(i) + PacketLen(|data|, i)]
  }

  /** All packets of a file, in order. */
  function Packets(data: seq<uint8>): (ps: seq<seq<uint8>>)
    ensures |ps| == PacketCount(|data|)
  {
    seq(PacketCount(|data|), i requires 0 <= i < PacketCount(|data|) => Packet(data, i))
  }

  /** The first k packets are exactly the first min(k * PACKET_SIZE, len) bytes. */
  lemma {:induction false} PacketsPrefix(data: seq<uint8>, k: nat)
    requires k <= PacketCount(|data|)
    ensures Flatten(Packets(data)[..k]) == data[..Min(PacketOffset(k), |data|)]
  {
    PacketCountIsCeiling(|data|);
    var ps := Packets(data);
    if k > 0 {
      PacketsPrefix(data, k - 1);
      assert ps[..k][..k - 1] == ps[..k - 1];
      assert Flatten(ps[..k]) == Flatten(ps[..k - 1]) + ps[k - 1];
      var lo := PacketOffset(k - 1);
      var hi := lo + PacketLen(|data|, k - 1);
      assert Min(lo, |data|) == lo;
      assert Min(PacketOffset(k), |data|) == hi;
      assert data[..lo] + data[lo..hi] == data[..hi];
    }
  }

  /** The packets, concatenated in order, are the file. */
  lemma PacketsReassemble(data: seq<uint8>)
    ensures Flatten(Packets(data)) == data
    ensures TotalLength(Packets(data)) == |data|
  {
    var ps := Packets(data);
    PacketsPrefix(data, |ps|);
    PacketCountIsCeiling(|data|);
    assert ps[..|ps|] == ps;
    FlattenLength(ps);
  }

  /** Every packet but the last is full, and every packet holds 1..PACKET_SIZE bytes. */
  lemma PacketSizes(data: seq<uint8>)
    ensures forall i :: 0 <= i < |Packets(data)| ==> 1 <= |Packets(data)[i]| <= PACKET_SIZE
    ensures forall i :: 0 <= i < |Packets(data)| - 1 ==> |Packets(data)[i]| == PACKET_SIZE
  {
  }

  /** A 100000-byte file is four packets, three full ones and one of
      100000 - 3 * 32768 = 1696 bytes. */
  lemma HundredThousandBytes()
    ensures PacketCount(100000) == 4
    ensures PacketLen(100000, 0) == PacketLen(100000, 1) == PacketLen(100000, 2) == PACKET_SIZE
    ensures PacketLen(100000, 3) == 1696
  {
  }
}
