/**
 * The stop-and-wait rule shared by the two push senders (send-file and
 * send-packets): send frame i, read one reply byte, go on with frame i + 1
 * on TRANSFER_NEXT, send frame i again on TRANSFER_AGAIN, and stop on any
 * other byte. The two senders differ only in how they treat the null byte
 * and a link that has no more reply bytes.
 */
module StopAndWait {
  import opened Bytes
  import opened Protocol
  import opened Codec

  datatype Sender = SendFileSender | SendPacketsSender

  /**
   * One reply byte: true to go on, false to send again.
   * send-file's readResponse: NEXT, AGAIN, then END, ERROR and anything else fatal.
   * send-packets: a 0 byte first ("null response"), then the same cases.
   */
  function ReadResponse(s: Sender, b: uint8): (r: Result<bool>)
    ensures r == Ok(true) <==> b == NEXT
    ensures r == Ok(false) <==> b == AGAIN
    ensures r == Fail(EndResponse) <==> b == END
    ensures r == Fail(ErrorResponse) <==> b == ERROR
    ensures r == Fail(NullResponse) <==> s == SendPacketsSender && b == 0
    ensures r.Fail? ==> r.why in {NullResponse, EndResponse, ErrorResponse, ErroneousResponse}
  {
    if s == SendPacketsSender && b == 0 then Fail(NullResponse)
    else if b == NEXT then Ok(true)
    else if b == AGAIN then Ok(false)
    else if b == END then Fail(EndResponse)
    else if b == ERROR then Fail(ErrorResponse)
    else Fail(ErroneousResponse)
  }

  /** Of the six control bytes, only TRANSFER_NEXT and TRANSFER_AGAIN let a sender go on. */
  lemma OnlyNextAndAgainContinue(s: Sender, c: Control)
    ensures ReadResponse(s, ControlByte(c)).Ok? <==> c == TransferNext || c == TransferAgain
  {
  }

  /** What a sender makes of a link with no reply byte left: send-file's read
      returns nothing, send-packets keeps the 0 it initialised the byte with. */
  function NoReply(s: Sender): (why: Exit)
    ensures s == SendPacketsSender ==> why == ReadResponse(s, 0).why
  {
    if s == SendPacketsSender then NullResponse else LinkClosed
  }

  /** The bytes the packet loop writes from frame i on, given the reply bytes,
      and how it ends. */
  function SendFrom(s: Sender, frames: seq<seq<uint8>>, i: nat, replies: seq<uint8>): (r: (seq<uint8>, Result<()>))
    requires i <= |frames|
    ensures r.1.Ok? ==> |frames| - i <= |replies|
    decreases |replies|
  {
    if i == |frames| then ([], Ok(()))
    else if replies == [] then (frames[i], Fail(NoReply(s)))
    else match ReadResponse(s, replies[0])
      case Fail(why) => (frames[i], Fail(why))
      case Ok(advance) =>
        var r := SendFrom(s, frames, if advance then i + 1 else i, replies[1..]);
        (frames[i] + r.0, r.1)
  }

  /** One round of the loop: frame i goes out, then the first reply byte
      decides between stopping, the same frame and the next one. */
  lemma SendStep(s: Sender, frames: seq<seq<uint8>>, i: nat, replies: seq<uint8>)
    requires i < |frames| && replies != []
    ensures ReadResponse(s, replies[0]).Fail? ==>
      SendFrom(s, frames, i, replies) == (frames[i], Fail(ReadResponse(s, replies[0]).why))
    ensures ReadResponse(s, replies[0]).Ok? ==>
      var next := if ReadResponse(s, replies[0]).value then i + 1 else i;
      SendFrom(s, frames, i, replies)
      == (frames[i] + SendFrom(s, frames, next, replies[1..]).0, SendFrom(s, frames, next, replies[1..]).1)
  {
  }

  /** The packet loop: write frame i, read one reply byte, advance on
      TRANSFER_NEXT, repeat on TRANSFER_AGAIN, stop on anything else. */
  method Run(s: Sender, frames: seq<seq<uint8>>, start: nat, replies: seq<uint8>)
    returns (wire: seq<uint8>, outcome: Result<()>)
    requires start <= |frames|
    ensures (wire, outcome) == SendFrom(s, frames, start, replies)
  {
    ghost var total := SendFrom(s, frames, start, replies);
    wire := [];
    var i, k := start, 0;
    assert replies[0..] == replies;
    while i < |frames|
      invariant start <= i <= |frames| && k <= |replies|
      invariant total.0 == wire + SendFrom(s, frames, i, replies[k..]).0
      invariant total.1 == SendFrom(s, frames, i, replies[k..]).1
      decreases |replies| - k
    {
      var frame := frames[i];
      ghost var sent := wire;
      wire := wire + frame;
      if k == |replies| {
        assert replies[k..] == [];
        return wire, Fail(NoReply(s));
      }
      assert replies[k..][1..] == replies[k + 1..];
      SendStep(s, frames, i, replies[k..]);
      var response := ReadResponse(s, replies[k]);
      k := k + 1;
      if response.Fail? {
        return wire, Fail(response.why);
      }
      if response.value {
        i := i + 1;
      }
      ghost var later := SendFrom(s, frames, i, replies[k..]).0;
      assert sent + (frame + later) == wire + later;
    }
    assert wire + [] == wire;
    outcome := Ok(());
  }

  /** When the reply to every frame is TRANSFER_NEXT, the loop writes the
      remaining frames once each, in order, and finishes. */
  lemma {:induction false} SendAllNext(s: Sender, frames: seq<seq<uint8>>, i: nat, replies: seq<uint8>)
    requires i <= |frames|
    requires |replies| >= |frames| - i
    requires forall j :: 0 <= j < |frames| - i ==> replies[j] == NEXT
    ensures SendFrom(s, frames, i, replies) == (Flatten(frames[i..]), Ok(()))
    decreases |frames| - i
  {
    if i == |frames| {
      assert frames[i..] == [];
    } else {
      SendAllNext(s, frames, i + 1, replies[1..]);
      assert frames[i..][1..] == frames[i + 1..];
      FlattenCons(frames[i..]);
    }
  }

  /** k TRANSFER_AGAIN replies followed by TRANSFER_NEXT make the loop send
      frame i k + 1 times and then go on with frame i + 1. */
  lemma {:induction false} RetransmitUntilNext(s: Sender, frames: seq<seq<uint8>>, i: nat, k: nat, rest: seq<uint8>)
    requires i < |frames|
    ensures var replies := seq(k, _ => AGAIN) + [NEXT] + rest;
      SendFrom(s, frames, i, replies)
      == (Flatten(seq(k + 1, _ => frames[i])) + SendFrom(s, frames, i + 1, rest).0,
          SendFrom(s, frames, i + 1, rest).1)
  {
    var frame := frames[i];
    var replies := seq(k, _ => AGAIN) + [NEXT] + rest;
    var copies := seq(k + 1, _ => frame);
    var tail := SendFrom(s, frames, i + 1, rest);
    if k == 0 {
      assert replies == [NEXT] + rest;
      assert replies[1..] == rest;
      assert copies == [frame];
      FlattenSingle(frame);
    } else {
      RetransmitUntilNext(s, frames, i, k - 1, rest);
      var fewer := seq(k, _ => frame);
      assert replies[0] == AGAIN;
      assert replies[1..] == seq(k - 1, _ => AGAIN) + [NEXT] + rest;
      assert SendFrom(s, frames, i, replies[1..]) == (Flatten(fewer) + tail.0, tail.1);
      assert copies[1..] == fewer;
      FlattenCons(copies);
      assert frame + (Flatten(fewer) + tail.0) == Flatten(copies) + tail.0;
    }
  }
}
