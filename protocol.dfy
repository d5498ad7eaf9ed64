/**
 * The constants shared by the responder and the push tools: the packet size,
 * the seven pull-model command codes, the nine reply status codes and the
 * reply record, and the six push-protocol control bytes.
 */
module Protocol {
  import opened Bytes

  /** 2^15 bytes: the largest payload of one packet. */
  const PACKET_SIZE: nat := 0x8000

  /** The packet size fits the 16-bit payload length of a reply and of a packet frame. */
  lemma PacketSizeFitsSixteenBits()
    ensures 0 < PACKET_SIZE <= UINT16_MAX
  {
  }

  datatype Command =
    | StartDownload
    | StartUpload
    | RequestPacket
    | SendPacket
    | CancelUpload
    | CancelDownload
    | FinalizeUpload

  function CommandCode(c: Command): (code: uint8)
    ensures 1 <= code <= 7
  {
    match c
    case StartDownload => 1
    case StartUpload => 2
    case RequestPacket => 3
    case SendPacket => 4
    case CancelUpload => 5
    case CancelDownload => 6
    case FinalizeUpload => 7
  }

  /** The responder's table of handlers, indexed by command byte: slot 0 is
      empty and slots 1..7 hold the handlers in code order. */
  function CommandTable(code: uint8): (c: Option<Command>)
    requires code <= 7
    ensures c.None? <==> code == 0
    ensures c.Some? ==> CommandCode(c.value) == code
  {
    match code
    case 0 => None
    case 1 => Some(StartDownload)
    case 2 => Some(StartUpload)
    case 3 => Some(RequestPacket)
    case 4 => Some(SendPacket)
    case 5 => Some(CancelUpload)
    case 6 => Some(CancelDownload)
    case 7 => Some(FinalizeUpload)
  }

  /** Every command sits in the table slot named by its own code, slot 0 is
      empty, and so the seven codes are distinct. */
  lemma {:induction false} CommandTableMatchesCodes(c: Command, code: uint8)
    requires code <= 7
    ensures CommandTable(CommandCode(c)) == Some(c)
    ensures CommandTable(0) == None
    ensures CommandTable(code) == Some(c) <==> code == CommandCode(c)
  {
  }

  datatype Status =
    | Success
    | ErrorFileIO
    | ErrorFileDoesntExist
    | ErrorAlreadyDownloading
    | ErrorAlreadyUploading
    | ErrorNotDownloading
    | ErrorNotUploading
    | ErrorDownloadOver
    | ErrorShasumMismatch

  function StatusCode(s: Status): (code: uint8)
    ensures code <= 8
    ensures code == 0 <==> s == Success
  {
    match s
    case Success => 0
    case ErrorFileIO => 1
    case ErrorFileDoesntExist => 2
    case ErrorAlreadyDownloading => 3
    case ErrorAlreadyUploading => 4
    case ErrorNotDownloading => 5
    case ErrorNotUploading => 6
    case ErrorDownloadOver => 7
    case ErrorShasumMismatch => 8
  }

  function StatusOfCode(code: uint8): (s: Option<Status>)
    ensures s.Some? <==> code <= 8
  {
    match code
    case 0 => Some(Success)
    case 1 => Some(ErrorFileIO)
    case 2 => Some(ErrorFileDoesntExist)
    case 3 => Some(ErrorAlreadyDownloading)
    case 4 => Some(ErrorAlreadyUploading)
    case 5 => Some(ErrorNotDownloading)
    case 6 => Some(ErrorNotUploading)
    case 7 => Some(ErrorDownloadOver)
    case 8 => Some(ErrorShasumMismatch)
    case _ => None
  }

  /** The status byte of a reply decodes to its status, so no two statuses share a byte. */
  lemma StatusCodeRoundTrip(s: Status, t: Status)
    ensures StatusOfCode(StatusCode(s)) == Some(s)
    ensures StatusCode(s) == StatusCode(t) ==> s == t
  {
  }

  /** A reply: a status and a payload. The C record's payloadLen is the
      payload's length, so it is not a field of its own; it is a uint16_t,
      and a reply fits the record when its payload's length does. */
  datatype Reply = Reply(status: Status, payload: seq<uint8>)
  {
    predicate Fits() { |payload| <= UINT16_MAX }
  }

  /** EMPTY_REPLY(s): status s, no payload. */
  function EmptyReply(s: Status): (r: Reply)
    ensures r.status == s && r.Fits() && |r.payload| == 0
  {
    Reply(s, [])
  }

  /** The push protocol's control bytes (enum TransferCommands). */
  datatype Control =
    | TransferStart
    | TransferPacket
    | TransferNext
    | TransferAgain
    | TransferEnd
    | TransferError

  function ControlByte(c: Control): (b: uint8)
    ensures 1 <= b <= 6
  {
    match c
    case TransferStart => 1
    case TransferPacket => 2
    case TransferNext => 3
    case TransferAgain => 4
    case TransferEnd => 5
    case TransferError => 6
  }

  function ControlOfByte(b: uint8): (c: Option<Control>)
    ensures c.Some? <==> 1 <= b <= 6
  {
    match b
    case 1 => Some(TransferStart)
    case 2 => Some(TransferPacket)
    case 3 => Some(TransferNext)
    case 4 => Some(TransferAgain)
    case 5 => Some(TransferEnd)
    case 6 => Some(TransferError)
    case _ => None
  }

  /** The control bytes are 1..6 in declaration order, each decodes back to its
      tag, none is the null byte 0, and so they are pairwise distinct. */
  lemma ControlByteRoundTrip(c: Control, d: Control)
    ensures ControlOfByte(ControlByte(c)) == Some(c)
    ensures ControlByte(c) != 0
    ensures ControlByte(c) == ControlByte(d) ==> c == d
  {
  }

  const START: uint8 := ControlByte(TransferStart)
  const PACKET: uint8 := ControlByte(TransferPacket)
  const NEXT: uint8 := ControlByte(TransferNext)
  const AGAIN: uint8 := ControlByte(TransferAgain)
  const END: uint8 := ControlByte(TransferEnd)
  const ERROR: uint8 := ControlByte(TransferError)
}
