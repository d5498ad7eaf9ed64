/**
 * The loops that move a buffer across the link a piece at a time.
 *
 * A `read` or `write` system call may move fewer bytes than asked for; the
 * kernel's successive answers are a parameter here (`Count(n)`, at most n
 * bytes moved, or `Failed` for -1). A read is further limited by the bytes
 * the other side has sent, and moves nothing once they are used up.
 *
 * readAllOrDie and writeAllOrDie advance their offset after each call and are
 * proved to move exactly the requested bytes. The inline loops of
 * send-packets and recieve-packets restart at the buffer's first byte on
 * every call; they are modelled as written, next to inputs that show the
 * difference.
 */
module Link {
  import opened Bytes
  import opened Protocol
  import opened Codec

  /** The return value of one read or write: a byte count, or -1. */
  datatype Answer = Count(n: nat) | Failed

  /** Total of the byte counts of a run of answers. */
  function CountSum(answers: seq<Answer>): nat
  {
    if answers == [] then 0
    else CountSum(answers[..|answers| - 1]) + (if answers[|answers| - 1].Count? then answers[|answers| - 1].n else 0)
  }

  predicate NoFailure(answers: seq<Answer>)
  {
    forall j :: 0 <= j < |answers| ==> answers[j].Count?
  }

  /**
   * readAllOrDie(fd, buf, len): read until `len` bytes have arrived, each
   * call asking for the `len - offset` bytes still missing and storing at
   * `buf + offset`. The bytes stored are the first bytes the link delivered,
   * in order; the call succeeds exactly when all `len` arrived, which happens
   * whenever the link delivers them and the kernel's counts add up to `len`.
   */
  method ReadAllOrDie(input: seq<uint8>, len: nat, answers: seq<Answer>)
    returns (buf: seq<uint8>, used: nat, outcome: Result<()>)
    ensures used <= |answers|
    ensures |buf| == Min(Min(CountSum(answers[..used]), len), |input|)
    ensures buf == input[..|buf|]
    ensures outcome.Ok? <==> |buf| == len
    ensures outcome.Fail? ==> outcome.why == LinkError || outcome.why == LinkClosed
    ensures outcome == Fail(LinkError) <==> used > 0 && answers[used - 1] == Failed
    ensures outcome == Fail(LinkClosed) ==> used == |answers|
    ensures forall j :: 0 <= j < used - 1 ==> answers[j].Count?
    ensures len <= |input| && NoFailure(answers) && CountSum(answers) >= len ==> outcome.Ok?
  {
    var offset := 0;
    used := 0;
    while offset < len
      invariant used <= |answers|
      invariant offset == Min(Min(CountSum(answers[..used]), len), |input|)
      invariant forall j :: 0 <= j < used ==> answers[j].Count?
      decreases |answers| - used
    {
      if used == |answers| {
        assert answers[..used] == answers;
        return input[..offset], used, Fail(LinkClosed);
      }
      assert answers[..used + 1][..used] == answers[..used];
      match answers[used]
      case Failed =>
        used := used + 1;
        return input[..offset], used, Fail(LinkError);
      case Count(n) =>
        assert CountSum(answers[..used + 1]) == CountSum(answers[..used]) + n;
        offset := offset + Min(Min(n, len - offset), |input| - offset);
        used := used + 1;
    }
    buf, outcome := input[..offset], Ok(());
  }

  /**
   * writeAllOrDie(fd, data, dataLen): write until all bytes are out, each
   * call handing over `data + written`. The link receives a prefix of the
   * data, in order, and all of it exactly when the call succeeds, which it
   * does whenever the kernel's counts add up to the length.
   */
  method WriteAllOrDie(data: seq<uint8>, answers: seq<Answer>)
    returns (wire: seq<uint8>, used: nat, outcome: Result<()>)
    ensures used <= |answers|
    ensures |wire| == Min(CountSum(answers[..used]), |data|)
    ensures wire == data[..|wire|]
    ensures outcome.Ok? <==> wire == data
    ensures outcome.Fail? ==> outcome.why == LinkError || outcome.why == LinkClosed
    ensures outcome == Fail(LinkError) <==> used > 0 && answers[used - 1] == Failed
    ensures outcome == Fail(LinkClosed) ==> used == |answers|
    ensures forall j :: 0 <= j < used - 1 ==> answers[j].Count?
    ensures NoFailure(answers) && CountSum(answers) >= |data| ==> outcome.Ok?
  {
    var written := 0;
    used := 0;
    wire := [];
    while written < |data|
      invariant used <= |answers|
      invariant written == Min(CountSum(answers[..used]), |data|)
      invariant wire == data[..written]
      invariant forall j :: 0 <= j < used ==> answers[j].Count?
      decreases |answers| - used
    {
      if used == |answers| {
        assert answers[..used] == answers;
        return wire, used, Fail(LinkClosed);
      }
      assert answers[..used + 1][..used] == answers[..used];
      match answers[used]
      case Failed =>
        used := used + 1;
        return wire, used, Fail(LinkError);
      case Count(n) =>
        var moved := Min(n, |data| - written);
        wire := wire + data[written..written + moved];
        written := written + moved;
        used := used + 1;
    }
    outcome := Ok(());
  }

  /** A 49-byte start frame taken by the kernel in two pieces, 10 and 39 bytes. */
  method SplitHeaderWrite(h: StartHeader) returns (wire: seq<uint8>)
    ensures wire == StartFrame(h)
  {
    var answers := [Count(10), Count(39)];
    assert answers[..|answers| - 1] == [Count(10)];
    assert CountSum([Count(10)]) == 10 by {
      assert [Count(10)][..0] == [];
    }
    var used, outcome;
    wire, used, outcome := WriteAllOrDie(StartFrame(h), answers);
  }

  /** The link output of the send-packets write loops (header and packet):
      every call hands over the whole buffer from its first byte, and the
      count it returns is added to `written`. */
  function RestartWrites(data: seq<uint8>, written: nat, answers: seq<Answer>): (r: (seq<uint8>, Result<()>))
    ensures r.1.Ok? ==> written + |r.0| >= |data|
    ensures r.1.Fail? ==> r.1.why == LinkClosed || r.1.why == LinkError
    decreases |answers|
  {
    if written >= |data| then ([], Ok(()))
    else if answers == [] then ([], Fail(LinkClosed))
    else match answers[0]
      case Failed => ([], Fail(LinkError))
      case Count(n) =>
        var moved := Min(n, |data|);
        var r := RestartWrites(data, written + moved, answers[1..]);
        (data[..moved] + r.0, r.1)
  }

  /** The write loop of send-packets as written. */
  method RestartWriteAsWritten(data: seq<uint8>, answers: seq<Answer>)
    returns (wire: seq<uint8>, outcome: Result<()>)
    ensures (wire, outcome) == RestartWrites(data, 0, answers)
  {
    var written := 0;
    var used := 0;
    wire := [];
    assert answers[0..] == answers;
    assert wire + RestartWrites(data, 0, answers).0 == RestartWrites(data, 0, answers).0;
    while written < |data|
      invariant used <= |answers|
      invariant RestartWrites(data, 0, answers)
             == (wire + RestartWrites(data, written, answers[used..]).0, RestartWrites(data, written, answers[used..]).1)
      decreases |answers| - used
    {
      if used == |answers| {
        assert answers[used..] == [];
        assert wire + [] == wire;
        return wire, Fail(LinkClosed);
      }
      assert answers[used..][1..] == answers[used + 1..];
      match answers[used]
      case Failed =>
        assert wire + [] == wire;
        return wire, Fail(LinkError);
      case Count(n) =>
        var moved := Min(n, |data|);
        assert wire + RestartWrites(data, written, answers[used..]).0
            == (wire + data[..moved]) + RestartWrites(data, written + moved, answers[used + 1..]).0;
        wire := wire + data[..moved];
        written := written + moved;
        used := used + 1;
    }
    assert RestartWrites(data, written, answers[used..]) == ([], Ok(()));
    assert wire + [] == wire;
    outcome := Ok(());
  }

  /** With the same two answers as SplitHeaderWrite, the restarting loop
      reports success but sends the frame's first 10 bytes followed by its
      first 39: byte 10 of the link carries TRANSFER_START again instead of
      the second byte of the packet count. */
  lemma RestartWritesCorruptsSplitHeader(h: StartHeader)
    requires h.numPackets < 256
    ensures RestartWrites(StartFrame(h), 0, [Count(10), Count(39)])
         == (StartFrame(h)[..10] + StartFrame(h)[..39], Ok(()))
    ensures (StartFrame(h)[..10] + StartFrame(h)[..39])[10] != StartFrame(h)[10]
  {
    var f := StartFrame(h);
    var answers := [Count(10), Count(39)];
    assert answers[1..] == [Count(39)];
    assert answers[1..][1..] == [];
    assert RestartWrites(f, 49, []) == ([], Ok(()));
    assert [Count(39)][1..] == [];
    assert f[..39] + [] == f[..39];
    assert RestartWrites(f, 10, [Count(39)]) == (f[..39], Ok(()));
    assert f[10] == f[9..17][1];
    assert LittleEndian(h.numPackets, 8)[1] == LittleEndian(h.numPackets / 256, 7)[0];
  }

  /** The link input consumed and the buffer left by the recieve-packets read
      loops (header and data): every call stores at the buffer's first byte,
      asking for the bytes still missing. */
  function RereadsAtStart(buf: seq<uint8>, input: seq<uint8>, got: nat, answers: seq<Answer>)
    : (r: (seq<uint8>, seq<uint8>, Result<()>))
    ensures |r.0| == |buf|
    decreases |answers|
  {
    if got >= |buf| then (buf, input, Ok(()))
    else if answers == [] then (buf, input, Fail(LinkClosed))
    else match answers[0]
      case Failed => (buf, input, Fail(LinkError))
      case Count(n) =>
        var moved := Min(Min(n, |buf| - got), |input|);
        RereadsAtStart(input[..moved] + buf[moved..], input[moved..], got + moved, answers[1..])
  }

  /** The read loop of recieve-packets as written; `buf` is the buffer's
      content before the loop (indeterminate in the source). */
  method RereadAsWritten(buf: seq<uint8>, input: seq<uint8>, answers: seq<Answer>)
    returns (filled: seq<uint8>, rest: seq<uint8>, outcome: Result<()>)
    ensures (filled, rest, outcome) == RereadsAtStart(buf, input, 0, answers)
  {
    var got := 0;
    var used := 0;
    filled, rest := buf, input;
    while got < |buf|
      invariant used <= |answers| && |filled| == |buf|
      invariant RereadsAtStart(filled, rest, got, answers[used..]) == RereadsAtStart(buf, input, 0, answers)
      decreases |answers| - used
    {
      if used == |answers| {
        return filled, rest, Fail(LinkClosed);
      }
      assert answers[used..][1..] == answers[used + 1..];
      match answers[used]
      case Failed =>
        return filled, rest, Fail(LinkError);
      case Count(n) =>
        var moved := Min(Min(n, |buf| - got), |rest|);
        filled, rest := rest[..moved] + filled[moved..], rest[moved..];
        got := got + moved;
        used := used + 1;
    }
    outcome := Ok(());
  }

  /** A six-byte packet header arriving in two reads of three bytes: the loop
      reports success, but the buffer holds the last three header bytes
      followed by what it held before, so the length it decodes is not the
      one sent whenever bytes 0 and 3 of the header differ. */
  lemma RereadsCorruptSplitHeader(before: seq<uint8>, input: seq<uint8>)
    requires |before| == 6 && |input| >= 6
    ensures RereadsAtStart(before, input, 0, [Count(3), Count(3)])
         == (input[3..6] + before[3..], input[6..], Ok(()))
    ensures input[0] != input[3] ==> input[3..6] + before[3..] != input[..6]
  {
    var answers := [Count(3), Count(3)];
    assert answers[1..] == [Count(3)];
    assert answers[1..][1..] == [];
    var b1 := input[..3] + before[3..];
    assert input[3..][..3] + b1[3..] == input[3..6] + before[3..];
    assert input[3..][3..] == input[6..];
    if input[0] != input[3] {
      assert (input[3..6] + before[3..])[0] == input[3];
    }
  }

  /** The correct loop, on the same two answers, stores the header as sent. */
  method SplitHeaderRead(input: seq<uint8>) returns (buf: seq<uint8>)
    requires |input| >= 6
    ensures buf == input[..6]
  {
    var answers := [Count(3), Count(3)];
    assert answers[..|answers| - 1] == [Count(3)];
    assert CountSum([Count(3)]) == 3 by {
      assert [Count(3)][..0] == [];
    }
    var used, outcome;
    buf, used, outcome := ReadAllOrDie(input, 6, answers);
  }
}
