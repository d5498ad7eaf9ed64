/**
 * Whole-file digests and their text form.
 *
 * SHA-256 and CRC-32 are foreign functions; they enter the model as function
 * values of the types below (a 32-byte digest, a 32-bit checksum), so every
 * property proved here holds whichever hash and checksum the program links.
 *
 * The text form is `sha256Str`: two lowercase hex characters per byte and a
 * terminating NUL, and its reader is the `strtoul`-based loop of send-packets,
 * which decodes the 64-character digest argument two characters at a time.
 */
module Digest {
  import opened Bytes

  type Digest = s: seq<uint8> | |s| == 32 witness seq(32, _ => 0)

  /** SHA-256 as a value: any function from bytes to 32-byte digests. */
  type Hasher = seq<uint8> -> Digest

  /** CRC-32 as a value: any function from bytes to 32-bit checksums. */
  type Checksum = seq<uint8> -> uint32

  /** sha256cmp: two digests agree on all 32 bytes. */
  predicate SameDigest(a: Digest, b: Digest)
  {
    forall i :: 0 <= i < 32 ==> a[i] == b[i]
  }

  lemma SameDigestIsEquality(a: Digest, b: Digest)
    ensures SameDigest(a, b) <==> a == b
  {
    if SameDigest(a, b) {
      assert a == b;
    }
  }

  /** One of the sixteen characters `0`-`9`, `a`-`f`. */
  predicate IsLowerHex(c: char)
  {
    '0' <= c <= '9' || 'a' <= c <= 'f'
  }

  /** The lowercase hex digit of a value below 16 (the `%x` conversion). */
  function HexDigit(v: nat): (c: char)
    requires v < 16
    ensures IsLowerHex(c)
  {
    if v < 10 then ('0' as int + v) as char else ('a' as int + v - 10) as char
  }

  /** `%02x` of one byte. */
  function HexPair(b: uint8): (t: string)
    ensures |t| == 2
  {
    [HexDigit(b / 16), HexDigit(b % 16)]
  }

  /** The text sha256Str writes before its NUL: each byte as two lowercase hex digits. */
  function HexText(d: seq<uint8>): (t: string)
    ensures |t| == 2 * |d|
  {
    if d == [] then [] else HexText(d[..|d| - 1]) + HexPair(d[|d| - 1])
  }

  lemma {:induction false} HexTextAt(d: seq<uint8>, i: nat)
    requires i < |d|
    ensures HexText(d)[2 * i] == HexDigit(d[i] / 16)
    ensures HexText(d)[2 * i + 1] == HexDigit(d[i] % 16)
  {
    if i < |d| - 1 {
      HexTextAt(d[..|d| - 1], i);
    }
  }

  /** Only the sixteen lowercase hex digits occur in the text. */
  lemma HexTextAlphabet(d: seq<uint8>)
    ensures forall k :: 0 <= k < |HexText(d)| ==> IsLowerHex(HexText(d)[k])
  {
    forall k | 0 <= k < |HexText(d)| ensures IsLowerHex(HexText(d)[k]) {
      HexTextAt(d, k / 2);
    }
  }

  lemma HexDigitInjective(a: nat, b: nat)
    requires a < 16 && b < 16 && HexDigit(a) == HexDigit(b)
    ensures a == b
  {
  }

  /** Distinct digests have distinct texts. */
  lemma HexTextInjective(d: seq<uint8>, e: seq<uint8>)
    requires |d| == |e| && HexText(d) == HexText(e)
    ensures d == e
  {
    forall i | 0 <= i < |d| ensures d[i] == e[i] {
      HexTextAt(d, i);
      HexTextAt(e, i);
      HexDigitInjective(d[i] / 16, e[i] / 16);
      HexDigitInjective(d[i] % 16, e[i] % 16);
    }
  }

  /** sha256Str: fill a 65-character buffer with the hex text of a 32-byte digest and a NUL. */
  method Sha256Str(shaStr: array<char>, shaSum: seq<uint8>)
    requires shaStr.Length == 65 && |shaSum| == 32
    modifies shaStr
    ensures shaStr[..64] == HexText(shaSum)
    ensures shaStr[64] == '\0'
  {
    for i := 0 to 32
      invariant shaStr[..2 * i] == HexText(shaSum[..i])
    {
      shaStr[2 * i] := HexDigit(shaSum[i] / 16);
      shaStr[2 * i + 1] := HexDigit(shaSum[i] % 16);
      assert shaSum[..i + 1][..i] == shaSum[..i];
      assert shaStr[..2 * (i + 1)] == shaStr[..2 * i] + HexPair(shaSum[i]);
    }
    shaStr[64] := '\0';
    assert shaSum[..32] == shaSum;
  }

  /** `isspace` in the C locale. */
  predicate IsSpace(c: char)
  {
    c == ' ' || c == '\t' || c == '\n' || c == '\r' || c as int == 11 || c as int == 12
  }

  /** The value of a base-16 digit, either case. */
  function HexValue(c: char): (v: Option<nat>)
    ensures v.Some? ==> v.value < 16
    ensures v.Some? <==> ('0' <= c <= '9' || 'a' <= c <= 'f' || 'A' <= c <= 'F')
  {
    if '0' <= c <= '9' then Some(c as int - '0' as int)
    else if 'a' <= c <= 'f' then Some(c as int - 'a' as int + 10)
    else if 'A' <= c <= 'F' then Some(c as int - 'A' as int + 10)
    else None
  }

  /**
   * One step of the digest-argument parser: `strtoul` in base 16 of the
   * two-character string c0 c1, truncated to a byte, accepted only when the
   * conversion consumed both characters. `strtoul` skips leading white space,
   * takes an optional sign (a minus negates modulo 2^64) and a `0x` prefix
   * (which, with nothing after it, leaves only the `0` consumed).
   */
  function ParseHexPair(c0: char, c1: char): (r: Option<uint8>)
    ensures r.Some? ==> HexValue(c1).Some?
    ensures r.Some? && !(IsSpace(c0) || c0 == '+' || c0 == '-') ==> HexValue(c0).Some?
    ensures HexValue(c0).Some? && HexValue(c1).Some? ==> r == Some(16 * HexValue(c0).value + HexValue(c1).value)
  {
    if IsSpace(c0) || c0 == '+' || c0 == '-' then
      match HexValue(c1)
      case None => None
      case Some(v) => Some(if c0 == '-' then (256 - v) % 256 else v)
    else
      match HexValue(c0)
      case None => None
      case Some(hi) =>
        if c0 == '0' && (c1 == 'x' || c1 == 'X') then None
        else match HexValue(c1)
          case None => None
          case Some(lo) => Some(16 * hi + lo)
  }

  /** Two lowercase hex digits read back as the byte they were written from. */
  lemma ParseHexPairOfHexPair(b: uint8)
    ensures ParseHexPair(HexPair(b)[0], HexPair(b)[1]) == Some(b)
  {
    var hi, lo := b / 16, b % 16;
    assert HexValue(HexDigit(hi)) == Some(hi);
    assert HexValue(HexDigit(lo)) == Some(lo);
    assert 16 * hi + lo == b;
  }

  /** The parser is more lenient than the writer: a sign or a blank in place of
      the high digit, or upper-case digits, are accepted too. */
  lemma ParseHexPairLenient()
    ensures ParseHexPair('+', 'f') == ParseHexPair('0', 'f') == Some(15)
    ensures ParseHexPair(' ', 'f') == Some(15)
    ensures ParseHexPair('-', '1') == ParseHexPair('f', 'f') == Some(255)
    ensures ParseHexPair('A', 'B') == ParseHexPair('a', 'b') == Some(0xab)
    ensures ParseHexPair('0', 'x') == None && ParseHexPair('g', '0') == None
  {
  }

  /**
   * The digest argument of send-packets: it must be exactly 64 characters,
   * and byte i is ParseHexPair of characters 2i and 2i+1; the first pair that
   * fails rejects the whole argument.
   */
  method ParseShaArg(arg: string) returns (r: Option<Digest>)
    ensures r.Some? <==>
      |arg| == 64 && forall i :: 0 <= i < 32 ==> ParseHexPair(arg[2 * i], arg[2 * i + 1]).Some?
    ensures r.Some? ==>
      forall i :: 0 <= i < 32 ==> ParseHexPair(arg[2 * i], arg[2 * i + 1]) == Some(r.value[i])
  {
    if |arg| != 64 {
      return None;
    }
    var shaSum: seq<uint8> := [];
    for i := 0 to 32
      invariant |shaSum| == i
      invariant forall k :: 0 <= k < i ==> ParseHexPair(arg[2 * k], arg[2 * k + 1]) == Some(shaSum[k])
    {
      var b := ParseHexPair(arg[2 * i], arg[2 * i + 1]);
      if b.None? {
        return None;
      }
      shaSum := shaSum + [b.value];
    }
    r := Some(shaSum);
  }

  /** Round trip: the argument parser applied to sha256Str's output returns the digest. */
  method HexTextParsesBack(d: Digest) returns (r: Option<Digest>)
    ensures r == Some(d)
  {
    var shaStr := new char[65];
    Sha256Str(shaStr, d);
    r := ParseShaArg(shaStr[..64]);
    var text := shaStr[..64];
    forall i | 0 <= i < 32
      ensures ParseHexPair(text[2 * i], text[2 * i + 1]) == Some(d[i])
    {
      HexTextAt(d, i);
      ParseHexPairOfHexPair(d[i]);
    }
    assert r.Some?;
    assert r.value == d by {
      forall i | 0 <= i < 32 ensures r.value[i] == d[i] {
        assert ParseHexPair(text[2 * i], text[2 * i + 1]) == Some(r.value[i]);
      }
    }
  }
}
