/**
 * The receiving side of the stop-and-wait loop, shared by receive-packets and
 * recieve-packets: read a packet frame, recompute its CRC-32, reply
 * TRANSFER_AGAIN and read the frame again when the checksums differ, and
 * otherwise reply TRANSFER_NEXT, store the data as packet i and go on with
 * packet i + 1, until packet n.
 */
module Receiver {
  import opened Bytes
  import opened Protocol
  import opened Digest
  import opened Codec
  import opened PacketFiles

  /** What the packet loop did: the reply bytes it wrote, the packets it stored
      (packet i first), the files on disk afterwards, and how it ended; on
      success, the link's bytes after the last packet frame. */
  datatype Reception = Reception(replies: seq<uint8>, files: seq<seq<uint8>>, store: Disk, outcome: Result<seq<uint8>>)

  /** k copies of b. */
  function Repeat(b: uint8, k: nat): (s: seq<uint8>)
    ensures |s| == k && forall j :: 0 <= j < k ==> s[j] == b
  {
    if k == 0 then [] else [b] + Repeat(b, k - 1)
  }

  /** How many times b occurs in s. */
  function CountOf(b: uint8, s: seq<uint8>): nat
  {
    if s == [] then 0 else (if s[0] == b then 1 else 0) + CountOf(b, s[1..])
  }

  /** The packet loop from packet i of n on the link's bytes input, with the
      files disk already on disk; a packet whose file cannot be opened stops
      the loop after its TRANSFER_NEXT. */
  function ReceiveFrom(crc: Checksum, dir: string, blocked: set<string>, i: nat, n: nat,
                       input: seq<uint8>, disk: Disk): (r: Reception)
    ensures 7 * |r.replies| <= |input|
    decreases |input|
  {
    if i >= n then Reception([], [], disk, Ok(input))
    else match ReadPacketFrame(input)
      case Fail(why) => Reception([], [], disk, Fail(why))
      case Ok((frame, rest)) =>
        if frame.header.crcSum != crc(frame.data) then
          var r := ReceiveFrom(crc, dir, blocked, i, n, rest, disk);
          Reception([AGAIN] + r.replies, r.files, r.store, r.outcome)
        else if PacketPath(dir, i) in blocked then Reception([NEXT], [], disk, Fail(FileError))
        else
          var r := ReceiveFrom(crc, dir, blocked, i + 1, n, rest, disk[PacketPath(dir, i) := frame.data]);
          Reception([NEXT] + r.replies, [frame.data] + r.files, r.store, r.outcome)
  }

  /** Every byte of s is TRANSFER_NEXT or TRANSFER_AGAIN. */
  predicate NextOrAgain(s: seq<uint8>)
  {
    forall j :: 0 <= j < |s| ==> s[j] in {NEXT, AGAIN}
  }

  /** The loop's replies are all TRANSFER_NEXT or TRANSFER_AGAIN. */
  lemma {:induction false} RepliesAreNextOrAgain(crc: Checksum, dir: string, blocked: set<string>, i: nat, n: nat,
                                                 input: seq<uint8>, disk: Disk)
    ensures NextOrAgain(ReceiveFrom(crc, dir, blocked, i, n, input, disk).replies)
    decreases |input|
  {
    if i < n && ReadPacketFrame(input).Ok? {
      var frame, rest := ReadPacketFrame(input).value.0, ReadPacketFrame(input).value.1;
      if frame.header.crcSum != crc(frame.data) {
        RepliesAreNextOrAgain(crc, dir, blocked, i, n, rest, disk);
        var later := ReceiveFrom(crc, dir, blocked, i, n, rest, disk).replies;
        assert ReceiveFrom(crc, dir, blocked, i, n, input, disk).replies == [AGAIN] + later;
        NextOrAgainCons(AGAIN, later);
      } else if PacketPath(dir, i) !in blocked {
        var next := disk[PacketPath(dir, i) := frame.data];
        RepliesAreNextOrAgain(crc, dir, blocked, i + 1, n, rest, next);
        var later := ReceiveFrom(crc, dir, blocked, i + 1, n, rest, next).replies;
        assert ReceiveFrom(crc, dir, blocked, i, n, input, disk).replies == [NEXT] + later;
        NextOrAgainCons(NEXT, later);
      }
    }
  }

  /** A reply in front of such replies keeps them so. */
  lemma NextOrAgainCons(b: uint8, s: seq<uint8>)
    requires b in {NEXT, AGAIN} && NextOrAgain(s)
    ensures NextOrAgain([b] + s)
  {
    forall j | 0 <= j < |[b] + s|
      ensures ([b] + s)[j] in {NEXT, AGAIN}
    {
      if j > 0 {
        assert ([b] + s)[j] == s[j - 1];
      }
    }
  }

  /** Every TRANSFER_NEXT but one that precedes a failed file open stands for
      a stored packet. */
  lemma {:induction false} ReceptionCounts(crc: Checksum, dir: string, blocked: set<string>, i: nat, n: nat,
                                           input: seq<uint8>, disk: Disk)
    ensures var r := ReceiveFrom(crc, dir, blocked, i, n, input, disk);
      CountOf(NEXT, r.replies) == |r.files| + (if r.outcome == Fail(FileError) then 1 else 0)
    decreases |input|
  {
    if i < n && ReadPacketFrame(input).Ok? {
      var frame, rest := ReadPacketFrame(input).value.0, ReadPacketFrame(input).value.1;
      if frame.header.crcSum != crc(frame.data) {
        ReceptionCounts(crc, dir, blocked, i, n, rest, disk);
        var r := ReceiveFrom(crc, dir, blocked, i, n, rest, disk);
        assert ([AGAIN] + r.replies)[1..] == r.replies;
      } else if PacketPath(dir, i) in blocked {
        assert [NEXT][1..] == [];
      } else {
        var next := disk[PacketPath(dir, i) := frame.data];
        ReceptionCounts(crc, dir, blocked, i + 1, n, rest, next);
        var r := ReceiveFrom(crc, dir, blocked, i + 1, n, rest, next);
        assert ([NEXT] + r.replies)[1..] == r.replies;
      }
    }
  }

  /** The loop stores at most the packets i .. n - 1, all of them when it
      succeeds, and then leaves a suffix of its input unread. */
  lemma {:induction false} ReceptionBounds(crc: Checksum, dir: string, blocked: set<string>, i: nat, n: nat,
                                           input: seq<uint8>, disk: Disk)
    ensures var r := ReceiveFrom(crc, dir, blocked, i, n, input, disk);
      && (r.files != [] ==> i + |r.files| <= n)
      && (r.outcome.Ok? && i <= n ==> i + |r.files| == n)
      && (r.outcome.Ok? ==> |r.outcome.value| <= |input| && r.outcome.value == input[|input| - |r.outcome.value|..])
    decreases |input|
  {
    if i < n && ReadPacketFrame(input).Ok? {
      var frame, rest := ReadPacketFrame(input).value.0, ReadPacketFrame(input).value.1;
      assert input[|input| - |rest|..] == rest;
      var r := ReceiveFrom(crc, dir, blocked, i, n, input, disk);
      if frame.header.crcSum != crc(frame.data) {
        var later := ReceiveFrom(crc, dir, blocked, i, n, rest, disk);
        assert r.files == later.files && r.outcome == later.outcome;
        ReceptionBounds(crc, dir, blocked, i, n, rest, disk);
      } else if PacketPath(dir, i) !in blocked {
        var next := disk[PacketPath(dir, i) := frame.data];
        var later := ReceiveFrom(crc, dir, blocked, i + 1, n, rest, next);
        assert r.files == [frame.data] + later.files && r.outcome == later.outcome;
        ReceptionBounds(crc, dir, blocked, i + 1, n, rest, next);
      }
    }
  }

  /** Writing packet i and then packets i + 1, ... gives the same files as
      writing packets i, i + 1, ... in one run. */
  lemma {:induction false} WrittenCons(dir: string, i: nat, f: seq<uint8>, fs: seq<seq<uint8>>)
    ensures Written(dir, i, [f] + fs) == Written(dir, i + 1, fs)[PacketPath(dir, i) := f]
    decreases |fs|
  {
    if fs == [] {
      assert ([f] + fs)[..0] == [];
    } else {
      var init, g := fs[..|fs| - 1], fs[|fs| - 1];
      WrittenCons(dir, i, f, init);
      assert ([f] + fs)[..|fs|] == [f] + init;
      var p, q := PacketPath(dir, i), PacketPath(dir, i + |fs|);
      PacketPathInjective(dir, i, i + |fs|);
      var w: Disk := Written(dir, i + 1, init);
      assert w[p := f][q := g] == w[q := g][p := f];
    }
  }

  /** A file written before files with other names keeps its contents. */
  lemma UpdateBeforeUnion(disk: Disk, w: Disk, p: string, f: seq<uint8>)
    requires p !in w
    ensures disk[p := f] + w == disk + w[p := f]
  {
  }

  /** The files the loop leaves on disk are the ones it had plus the packets
      it stored, each at its own path. */
  lemma {:induction false} ReceptionStore(crc: Checksum, dir: string, blocked: set<string>, i: nat, n: nat,
                                          input: seq<uint8>, disk: Disk)
    ensures var r := ReceiveFrom(crc, dir, blocked, i, n, input, disk);
      r.store == disk + Written(dir, i, r.files)
    decreases |input|
  {
    var r := ReceiveFrom(crc, dir, blocked, i, n, input, disk);
    if i < n && ReadPacketFrame(input).Ok? {
      var frame, rest := ReadPacketFrame(input).value.0, ReadPacketFrame(input).value.1;
      var p := PacketPath(dir, i);
      if frame.header.crcSum != crc(frame.data) {
        ReceptionStore(crc, dir, blocked, i, n, rest, disk);
      } else if p !in blocked {
        var next := disk[p := frame.data];
        ReceptionStore(crc, dir, blocked, i + 1, n, rest, next);
        var later := ReceiveFrom(crc, dir, blocked, i + 1, n, rest, next).files;
        var w: Disk := Written(dir, i + 1, later);
        WrittenCons(dir, i, frame.data, later);
        WrittenContents(dir, i + 1, later);
        if p in w {
          var k :| i + 1 <= k < i + 1 + |later| && p == PacketPath(dir, k);
          PacketPathInjective(dir, i, k);
        }
        UpdateBeforeUnion(disk, w, p, frame.data);
      } else {
        assert disk + map[] == disk;
      }
    } else {
      assert disk + map[] == disk;
    }
  }

  /** A run of the loop that has already written `replies` and stored
      `stored` before going on as r. */
  function Resumed(replies: seq<uint8>, stored: seq<seq<uint8>>, r: Reception): (t: Reception)
    ensures replies == [] && stored == [] ==> t == r
  {
    Reception(replies + r.replies, stored + r.files, r.store, r.outcome)
  }

  /** Moving one step's replies and files into the part already done. */
  lemma ResumedStep(replies: seq<uint8>, stored: seq<seq<uint8>>, more: seq<uint8>, files: seq<seq<uint8>>, r: Reception)
    ensures Resumed(replies, stored, Reception(more + r.replies, files + r.files, r.store, r.outcome))
      == Resumed(replies + more, stored + files, r)
  {
    assert replies + (more + r.replies) == replies + more + r.replies;
    assert stored + (files + r.files) == stored + files + r.files;
  }

  /** The loop of both receivers: each packet file is opened as `<dir>/<i>.pkt`
      and written with the packet's data. */
  method ReceiveLoop(crc: Checksum, dir: string, blocked: set<string>, start: nat, n: nat,
                     input: seq<uint8>, disk: Disk)
    returns (replies: seq<uint8>, store: Disk, outcome: Result<seq<uint8>>)
    ensures var r := ReceiveFrom(crc, dir, blocked, start, n, input, disk);
      replies == r.replies && store == r.store && outcome == r.outcome
    ensures store == disk + Written(dir, start, ReceiveFrom(crc, dir, blocked, start, n, input, disk).files)
  {
    ghost var total := ReceiveFrom(crc, dir, blocked, start, n, input, disk);
    ReceptionStore(crc, dir, blocked, start, n, input, disk);
    replies, store := [], disk;
    var i: nat, rest := start, input;
    ghost var stored: seq<seq<uint8>> := [];
    assert Resumed([], [], total) == total;
    while i < n
      invariant total == Resumed(replies, stored, ReceiveFrom(crc, dir, blocked, i, n, rest, store))
      decreases |rest|
    {
      ghost var now := ReceiveFrom(crc, dir, blocked, i, n, rest, store);
      var read := ReadPacketFrame(rest);
      if read.Fail? {
        assert now == Reception([], [], store, Fail(read.why));
        outcome := Fail(read.why);
        return;
      }
      var frame := read.value.0;
      rest := read.value.1;
      if frame.header.crcSum != crc(frame.data) {
        ghost var later := ReceiveFrom(crc, dir, blocked, i, n, rest, store);
        assert now == Reception([AGAIN] + later.replies, later.files, later.store, later.outcome);
        ResumedStep(replies, stored, [AGAIN], [], later);
        replies := replies + [AGAIN];
        continue;
      }
      var path := PacketPath(dir, i);
      if path in blocked {
        assert now == Reception([NEXT], [], store, Fail(FileError));
        replies := replies + [NEXT];
        outcome := Fail(FileError);
        return;
      }
      ghost var later := ReceiveFrom(crc, dir, blocked, i + 1, n, rest, store[path := frame.data]);
      assert now == Reception([NEXT] + later.replies, [frame.data] + later.files, later.store, later.outcome);
      ResumedStep(replies, stored, [NEXT], [frame.data], later);
      replies := replies + [NEXT];
      stored := stored + [frame.data];
      store := store[path := frame.data];
      i := i + 1;
    }
    assert ReceiveFrom(crc, dir, blocked, i, n, rest, store) == Reception([], [], store, Ok(rest));
    outcome := Ok(rest);
  }

  /** An intact frame of packet i is answered TRANSFER_NEXT, its data is
      written to packet i's file, and the loop goes on with packet i + 1. */
  lemma ReceiveGood(crc: Checksum, dir: string, blocked: set<string>, i: nat, n: nat,
                    data: seq<uint8>, input: seq<uint8>, disk: Disk)
    requires i < n && |data| <= UINT16_MAX && PacketPath(dir, i) !in blocked
    ensures var r := ReceiveFrom(crc, dir, blocked, i + 1, n, input, disk[PacketPath(dir, i) := data]);
      ReceiveFrom(crc, dir, blocked, i, n, PacketFrame(data, crc(data)) + input, disk)
      == Reception([NEXT] + r.replies, [data] + r.files, r.store, r.outcome)
  {
    ReadPacketFrameOfPacketFrame(data, crc(data), input);
  }

  /** The bytes a sender writes for a run of packets when every frame is
      answered TRANSFER_NEXT: the frames one after the other. */
  function Framed(crc: Checksum, packets: seq<seq<uint8>>): (wire: seq<uint8>)
    ensures packets != [] ==> wire == PacketFrame(packets[0], crc(packets[0])) + Framed(crc, packets[1..])
  {
    if packets == [] then [] else PacketFrame(packets[0], crc(packets[0])) + Framed(crc, packets[1..])
  }

  /** Framed is the concatenation of the packets' frames. */
  lemma {:induction false} FramedIsFlatten(crc: Checksum, packets: seq<seq<uint8>>)
    ensures Framed(crc, packets) == Flatten(PacketFrames(crc, packets))
    decreases |packets|
  {
    var frames := PacketFrames(crc, packets);
    if packets == [] {
      assert frames == [];
    } else {
      FramedIsFlatten(crc, packets[1..]);
      assert PacketFrames(crc, packets[1..]) == frames[1..];
      FlattenCons(frames);
    }
  }

  /** The frames of n - i intact packets, as written by the senders, are each
      answered TRANSFER_NEXT and stored unchanged, and the loop ends right
      after the last of them. */
  lemma {:induction false} ReceiveIntact(crc: Checksum, dir: string, blocked: set<string>, i: nat, n: nat,
                                         packets: seq<seq<uint8>>, rest: seq<uint8>, disk: Disk)
    requires i + |packets| == n
    requires forall j :: 0 <= j < |packets| ==> |packets[j]| <= UINT16_MAX
    requires forall k :: i <= k < n ==> PacketPath(dir, k) !in blocked
    ensures var r := ReceiveFrom(crc, dir, blocked, i, n, Framed(crc, packets) + rest, disk);
      r.replies == Repeat(NEXT, |packets|) && r.files == packets && r.outcome == Ok(rest)
    decreases |packets|
  {
    if packets == [] {
      assert Framed(crc, packets) + rest == rest;
    } else {
      ReceiveIntact(crc, dir, blocked, i + 1, n, packets[1..], rest, disk[PacketPath(dir, i) := packets[0]]);
      IntactStep(crc, dir, blocked, i, n, packets, rest, disk);
    }
  }

  /** One step of ReceiveIntact: the first frame is answered and stored, and
      the rest are received as before. */
  lemma IntactStep(crc: Checksum, dir: string, blocked: set<string>, i: nat, n: nat,
                   packets: seq<seq<uint8>>, rest: seq<uint8>, disk: Disk)
    requires packets != [] && i < n && |packets[0]| <= UINT16_MAX && PacketPath(dir, i) !in blocked
    requires var r := ReceiveFrom(crc, dir, blocked, i + 1, n, Framed(crc, packets[1..]) + rest,
                                  disk[PacketPath(dir, i) := packets[0]]);
      r.replies == Repeat(NEXT, |packets| - 1) && r.files == packets[1..] && r.outcome == Ok(rest)
    ensures var r := ReceiveFrom(crc, dir, blocked, i, n, Framed(crc, packets) + rest, disk);
      r.replies == Repeat(NEXT, |packets|) && r.files == packets && r.outcome == Ok(rest)
  {
    var data, others := packets[0], packets[1..];
    var tail := Framed(crc, others) + rest;
    assert Framed(crc, packets) + rest == PacketFrame(data, crc(data)) + tail;
    ReceiveGood(crc, dir, blocked, i, n, data, tail, disk);
    assert Repeat(NEXT, |packets|) == [NEXT] + Repeat(NEXT, |others|);
    assert packets == [data] + others;
  }

  /** A frame whose checksum field does not match its data (damaged on the
      link) is answered TRANSFER_AGAIN and not stored, and the loop stays at
      the same packet. */
  lemma ReceiveCorrupted(crc: Checksum, dir: string, blocked: set<string>, i: nat, n: nat,
                         data: seq<uint8>, sum: uint32, input: seq<uint8>, disk: Disk)
    requires i < n && |data| <= UINT16_MAX && sum != crc(data)
    ensures var r := ReceiveFrom(crc, dir, blocked, i, n, input, disk);
      ReceiveFrom(crc, dir, blocked, i, n, PacketFrame(data, sum) + input, disk)
      == Reception([AGAIN] + r.replies, r.files, r.store, r.outcome)
  {
    ReadPacketFrameOfPacketFrame(data, sum, input);
  }
}
