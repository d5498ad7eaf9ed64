/**
 * The text metadata files of the push tools: `%lu`/`%zu` decimal formatting,
 * `strtoul` in base 10 over one `getline` line, the two-line packet metadata
 * written by packetize and recieve-packets and read back by send-packets,
 * and the three-line `receiving.meta` written by receive-packets.
 */
module Decimal {
  import opened Bytes
  import opened Digest

  const ULONG_MAX: nat := UINT64_LIMIT - 1

  function DigitChar(d: nat): (c: char)
    requires d < 10
    ensures '0' <= c <= '9'
  {
    ('0' as int + d) as char
  }

  predicate IsDigit(c: char)
  {
    '0' <= c <= '9'
  }

  function DigitValue(c: char): (d: nat)
    requires IsDigit(c)
    ensures d < 10 && DigitChar(d) == c
  {
    c as int - '0' as int
  }

  /** `%lu` of n: its decimal digits, most significant first, with no leading zeros. */
  function DecimalText(n: nat): (t: string)
    ensures |t| >= 1
    ensures forall k :: 0 <= k < |t| ==> IsDigit(t[k])
    ensures |t| > 1 ==> t[0] != '0'
  {
    if n < 10 then [DigitChar(n)] else DecimalText(n / 10) + [DigitChar(n % 10)]
  }

  /** The number a string of decimal digits denotes. */
  function DigitsValue(s: string): nat
    requires forall k :: 0 <= k < |s| ==> IsDigit(s[k])
  {
    if s == [] then 0 else 10 * DigitsValue(s[..|s| - 1]) + DigitValue(s[|s| - 1])
  }

  lemma {:induction false} DigitsValueOfDecimal(n: nat)
    ensures DigitsValue(DecimalText(n)) == n
  {
    if n >= 10 {
      var t := DecimalText(n);
      assert t[..|t| - 1] == DecimalText(n / 10);
      DigitsValueOfDecimal(n / 10);
    }
  }

  /** The longest prefix of s made of decimal digits. */
  function LeadingDigits(s: string): (p: string)
    ensures |p| <= |s| && p == s[..|p|]
    ensures forall k :: 0 <= k < |p| ==> IsDigit(p[k])
    ensures |p| < |s| ==> !IsDigit(s[|p|])
  {
    if s == [] || !IsDigit(s[0]) then [] else [s[0]] + LeadingDigits(s[1..])
  }

  lemma {:induction false} LeadingDigitsOfDigits(p: string, tail: string)
    requires forall k :: 0 <= k < |p| ==> IsDigit(p[k])
    requires tail == [] || !IsDigit(tail[0])
    ensures LeadingDigits(p + tail) == p
  {
    if p != [] {
      assert (p + tail)[1..] == p[1..] + tail;
      LeadingDigitsOfDigits(p[1..], tail);
    } else {
      assert p + tail == tail;
    }
  }

  /** The part of s after its leading white space (`isspace`). */
  function SkipSpace(s: string): (r: string)
    ensures |r| <= |s| && r == s[|s| - |r|..]
    ensures r == [] || !IsSpace(r[0])
  {
    if s != [] && IsSpace(s[0]) then SkipSpace(s[1..]) else s
  }

  /**
   * `strtoul(line, NULL, 10)`: skip white space, take an optional sign and
   * the longest run of digits (none gives 0); a value above ULONG_MAX
   * saturates to ULONG_MAX, and a minus sign negates modulo 2^64.
   */
  function Strtoul10(line: string): (v: nat)
    ensures v <= ULONG_MAX
  {
    var s := SkipSpace(line);
    var negative := s != [] && s[0] == '-';
    var body := if s != [] && (s[0] == '+' || s[0] == '-') then s[1..] else s;
    var magnitude := DigitsValue(LeadingDigits(body));
    if magnitude > ULONG_MAX then ULONG_MAX
    else if negative then (UINT64_LIMIT - magnitude) % UINT64_LIMIT
    else magnitude
  }

  /** `%lu` read back by strtoul: any number below 2^64, followed by a newline. */
  lemma Strtoul10OfDecimalLine(n: nat)
    requires n <= ULONG_MAX
    ensures Strtoul10(DecimalText(n) + "\n") == n
  {
    var line := DecimalText(n) + "\n";
    assert SkipSpace(line) == line;
    LeadingDigitsOfDigits(DecimalText(n), "\n");
    DigitsValueOfDecimal(n);
  }

  /** A `getline` from position 0: the text up to and including the first
      newline, or all of it when there is none; None at end of file. */
  function GetLine(text: string): (r: Option<(string, string)>)
    ensures r.None? <==> text == []
    ensures r.Some? ==> r.value.0 + r.value.1 == text && r.value.0 != []
    ensures r.Some? ==> forall k :: 0 <= k < |r.value.0| - 1 ==> r.value.0[k] != '\n'
  {
    if text == [] then None
    else if text[0] == '\n' then Some(("\n", text[1..]))
    else match GetLine(text[1..])
      case None => Some(([text[0]], []))
      case Some(lr) => Some(([text[0]] + lr.0, lr.1))
  }

  lemma {:induction false} GetLineOfLine(body: string, rest: string)
    requires '\n' !in body
    ensures GetLine(body + "\n" + rest) == Some((body + "\n", rest))
  {
    if body != [] {
      assert (body + "\n" + rest)[1..] == body[1..] + "\n" + rest;
      GetLineOfLine(body[1..], rest);
      assert [body[0]] + (body[1..] + "\n") == body + "\n";
    }
  }

  datatype MetaError = MissingLine | ZeroField

  datatype MetaResult = MetaOk(fileSize: nat, packetNum: nat) | MetaFailed(error: MetaError)

  /**
   * send-packets reads the packet metadata: the first line is the file size,
   * the second the packet count, each through strtoul; a missing line or a
   * zero in either field rejects the file.
   */
  function ReadPacketMeta(text: string): (r: MetaResult)
    ensures r.MetaOk? ==> r.fileSize > 0 && r.packetNum > 0
    ensures r.MetaOk? ==> r.fileSize <= ULONG_MAX && r.packetNum <= ULONG_MAX
    ensures text == [] ==> r == MetaFailed(MissingLine)
  {
    match GetLine(text)
    case None => MetaFailed(MissingLine)
    case Some(first) =>
      match GetLine(first.1)
      case None => MetaFailed(MissingLine)
      case Some(second) =>
        var fileSize := Strtoul10(first.0);
        var packetNum := Strtoul10(second.0);
        if fileSize == 0 || packetNum == 0 then MetaFailed(ZeroField)
        else MetaOk(fileSize, packetNum)
  }

  /** packetize and recieve-packets write `"%lu\n%lu\n"` of the length and the packet count. */
  function PacketMetaText(fileSize: nat, packetNum: nat): string
  {
    DecimalText(fileSize) + "\n" + DecimalText(packetNum) + "\n"
  }

  lemma DecimalTextHasNoNewline(n: nat)
    ensures '\n' !in DecimalText(n)
  {
  }

  /** The metadata written by packetize (or recieve-packets) is read back by
      send-packets as the same two numbers, when both are nonzero and below 2^64;
      the metadata of an empty file is rejected. */
  lemma {:induction false} PacketMetaRoundTrip(fileSize: nat, packetNum: nat)
    requires fileSize <= ULONG_MAX && packetNum <= ULONG_MAX
    ensures ReadPacketMeta(PacketMetaText(fileSize, packetNum)) ==
      if fileSize == 0 || packetNum == 0 then MetaFailed(ZeroField) else MetaOk(fileSize, packetNum)
  {
    var a, b := DecimalText(fileSize), DecimalText(packetNum);
    DecimalTextHasNoNewline(fileSize);
    DecimalTextHasNoNewline(packetNum);
    assert PacketMetaText(fileSize, packetNum) == a + "\n" + (b + "\n");
    GetLineOfLine(a, b + "\n");
    assert b + "\n" == b + "\n" + [];
    GetLineOfLine(b, []);
    Strtoul10OfDecimalLine(fileSize);
    Strtoul10OfDecimalLine(packetNum);
  }

  /** receive-packets' `receiving.meta`: the digest's hex text, the file length
      and the packet count, one per line. */
  function ReceivingMetaText(shaSum: Digest, fileLen: nat, packetNum: nat): (t: string)
  {
    HexText(shaSum) + "\n" + DecimalText(fileLen) + "\n" + DecimalText(packetNum) + "\n"
  }

  /** Its first line is the 64 hex digits, and the remaining two lines are the
      packet metadata that send-packets reads. */
  lemma ReceivingMetaLayout(shaSum: Digest, fileLen: nat, packetNum: nat)
    ensures |ReceivingMetaText(shaSum, fileLen, packetNum)| > 65
    ensures ReceivingMetaText(shaSum, fileLen, packetNum)[..64] == HexText(shaSum)
    ensures ReceivingMetaText(shaSum, fileLen, packetNum)[64] == '\n'
    ensures ReceivingMetaText(shaSum, fileLen, packetNum)[65..] == PacketMetaText(fileLen, packetNum)
  {
    var t := ReceivingMetaText(shaSum, fileLen, packetNum);
    assert t == HexText(shaSum) + "\n" + PacketMetaText(fileLen, packetNum);
  }

  /** The packet metadata text is plain ASCII, one byte per character on disk. */
  lemma PacketMetaIsByteText(fileLen: nat, packetNum: nat)
    ensures IsByteText(PacketMetaText(fileLen, packetNum))
  {
  }

  /** So is receive-packets' metadata text. */
  lemma ReceivingMetaIsByteText(shaSum: Digest, fileLen: nat, packetNum: nat)
    ensures IsByteText(ReceivingMetaText(shaSum, fileLen, packetNum))
  {
    PacketMetaIsByteText(fileLen, packetNum);
    HexTextAlphabet(shaSum);
    var t := ReceivingMetaText(shaSum, fileLen, packetNum);
    assert t == HexText(shaSum) + "\n" + PacketMetaText(fileLen, packetNum);
  }
}
