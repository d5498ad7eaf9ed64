/**
 * Packet files on disk: packet i of a transfer lives at `<dir>/<i>.pkt`
 * (the `"/%lu.pkt"` / `"%zu.pkt"` names of packetize, send-packets,
 * receive-packets and recieve-packets). A directory of packet files is a map
 * from path to contents.
 */
module PacketFiles {
  import opened Bytes
  import opened Decimal

  type Disk = map<string, seq<uint8>>

  /** `<dir>/<i>.pkt`. */
  function PacketPath(dir: string, i: nat): (p: string)
    ensures |p| > |dir| && p[..|dir|] == dir
  {
    dir + "/" + DecimalText(i) + ".pkt"
  }

  lemma DecimalTextInjective(a: nat, b: nat)
    requires DecimalText(a) == DecimalText(b)
    ensures a == b
  {
    DigitsValueOfDecimal(a);
    DigitsValueOfDecimal(b);
  }

  /** Different packet indices have different file names. */
  lemma PacketPathInjective(dir: string, a: nat, b: nat)
    ensures PacketPath(dir, a) == PacketPath(dir, b) <==> a == b
  {
    if PacketPath(dir, a) == PacketPath(dir, b) {
      var pa, pb := PacketPath(dir, a), PacketPath(dir, b);
      var n := |dir| + 1;
      assert |DecimalText(a)| == |DecimalText(b)|;
      assert pa[n..n + |DecimalText(a)|] == DecimalText(a);
      assert pb[n..n + |DecimalText(b)|] == DecimalText(b);
      DecimalTextInjective(a, b);
    }
  }

  /** The files a run writes when it stores files[j] as packet start + j of dir. */
  function Written(dir: string, start: nat, files: seq<seq<uint8>>): (m: Disk)
    decreases |files|
  {
    if files == [] then map[]
    else Written(dir, start, files[..|files| - 1])[PacketPath(dir, start + |files| - 1) := files[|files| - 1]]
  }

  /** Packet i, for start <= i < start + |files|, is stored under its own name
      and holds files[i - start]; nothing else is stored. */
  lemma {:induction false} WrittenContents(dir: string, start: nat, files: seq<seq<uint8>>)
    ensures forall i :: start <= i < start + |files| ==>
      PacketPath(dir, i) in Written(dir, start, files) && Written(dir, start, files)[PacketPath(dir, i)] == files[i - start]
    ensures forall p :: p in Written(dir, start, files) ==>
      exists i :: start <= i < start + |files| && p == PacketPath(dir, i)
    decreases |files|
  {
    if files != [] {
      var init := files[..|files| - 1];
      WrittenContents(dir, start, init);
      var last := start + |files| - 1;
      forall i | start <= i < start + |files|
        ensures PacketPath(dir, i) in Written(dir, start, files)
        ensures Written(dir, start, files)[PacketPath(dir, i)] == files[i - start]
      {
        PacketPathInjective(dir, i, last);
        if i < last {
          assert init[i - start] == files[i - start];
        }
      }
    }
  }

  /** Writing packet i after packets 0 .. i - 1 of `files` on top of `disk`. */
  lemma WrittenStep(disk: Disk, dir: string, files: seq<seq<uint8>>, i: nat)
    requires i < |files|
    ensures disk + Written(dir, 0, files[..i + 1]) == (disk + Written(dir, 0, files[..i]))[PacketPath(dir, i) := files[i]]
  {
    assert files[..i + 1][..i] == files[..i];
  }
}
