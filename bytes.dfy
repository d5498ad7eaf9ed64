/**
 * Fixed-width machine integers, the host's little-endian byte order used by
 * every `memcpy` of an integer into a frame, sequence flattening, and C strings
 * (the bytes of a buffer up to its first NUL).
 */
module Bytes {

  type uint8 = x: int | 0 <= x < 0x100
  type uint16 = x: int | 0 <= x < 0x1_0000
  type uint32 = x: int | 0 <= x < 0x1_0000_0000
  type uint64 = x: int | 0 <= x < 0x1_0000_0000_0000_0000

  datatype Option<T> = None | Some(value: T)

  const UINT16_MAX: nat := 0xFFFF
  const UINT64_LIMIT: nat := 0x1_0000_0000_0000_0000

  function Min(a: int, b: int): (m: int)
    ensures m <= a && m <= b && (m == a || m == b)
  {
    if a <= b then a else b
  }

  /** 256 to the power k: one more than the largest k-byte unsigned value. */
  function Pow256(k: nat): (p: nat)
    ensures p >= 1
  {
    if k == 0 then 1 else 256 * Pow256(k - 1)
  }

  /** The `width` low-order bytes of n, least significant first (what `memcpy`
      of an unsigned integer writes on a little-endian host). */
  function LittleEndian(n: nat, width: nat): (r: seq<uint8>)
    ensures |r| == width
  {
    if width == 0 then [] else [n % 256] + LittleEndian(n / 256, width - 1)
  }

  /** The unsigned integer whose little-endian bytes are s. */
  function FromLittleEndian(s: seq<uint8>): (n: nat)
    ensures n < Pow256(|s|)
  {
    if s == [] then 0 else s[0] + 256 * FromLittleEndian(s[1..])
  }

  lemma {:induction false} DecodeEncode(n: nat, width: nat)
    requires n < Pow256(width)
    ensures FromLittleEndian(LittleEndian(n, width)) == n
  {
    if width > 0 {
      var s := LittleEndian(n, width);
      assert s[1..] == LittleEndian(n / 256, width - 1);
      DecodeEncode(n / 256, width - 1);
    }
  }

  lemma {:induction false} EncodeDecode(s: seq<uint8>)
    ensures LittleEndian(FromLittleEndian(s), |s|) == s
  {
    if s != [] {
      var n := FromLittleEndian(s);
      assert n % 256 == s[0] && n / 256 == FromLittleEndian(s[1..]);
      EncodeDecode(s[1..]);
    }
  }

  /** A sequence is its three pieces put back together. */
  lemma SplitThree<T>(s: seq<T>, i: nat, j: nat)
    requires i <= j <= |s|
    ensures s == s[0..i] + s[i..j] + s[j..|s|]
  {
  }

  /** Eight bytes read as a uint64_t and written back are the same bytes. */
  lemma Uint64RoundTrip(s: seq<uint8>)
    requires |s| == 8
    ensures FromLittleEndian(s) < UINT64_LIMIT && LittleEndian(FromLittleEndian(s), 8) == s
  {
    Pow256Eight();
    EncodeDecode(s);
  }

  /** Two equal-width encodings are equal only for equal values below 256^width. */
  lemma LittleEndianInjective(a: nat, b: nat, width: nat)
    requires a < Pow256(width) && b < Pow256(width)
    requires LittleEndian(a, width) == LittleEndian(b, width)
    ensures a == b
  {
    DecodeEncode(a, width);
    DecodeEncode(b, width);
  }

  lemma Pow256Eight()
    ensures Pow256(2) == 0x1_0000 && Pow256(4) == 0x1_0000_0000
    ensures Pow256(8) == UINT64_LIMIT
  {
  }

  /** The concatenation of a sequence of sequences, in order. */
  function Flatten<T>(ss: seq<seq<T>>): seq<T>
  {
    if ss == [] then [] else Flatten(ss[..|ss| - 1]) + ss[|ss| - 1]
  }

  /** Total length of a sequence of sequences. */
  function TotalLength<T>(ss: seq<seq<T>>): nat
  {
    if ss == [] then 0 else TotalLength(ss[..|ss| - 1]) + |ss[|ss| - 1]|
  }

  lemma {:induction false} FlattenLength<T>(ss: seq<seq<T>>)
    ensures |Flatten(ss)| == TotalLength(ss)
  {
    if ss != [] {
      FlattenLength(ss[..|ss| - 1]);
    }
  }

  lemma {:induction false} FlattenAppend<T>(a: seq<seq<T>>, b: seq<seq<T>>)
    ensures Flatten(a + b) == Flatten(a) + Flatten(b)
  {
    if b == [] {
      assert a + b == a;
    } else {
      var front := b[..|b| - 1];
      assert a + b != [];
      assert (a + b)[..|a + b| - 1] == a + front;
      assert (a + b)[|a + b| - 1] == b[|b| - 1];
      assert Flatten(a + b) == Flatten(a + front) + b[|b| - 1];
      FlattenAppend(a, front);
      assert Flatten(b) == Flatten(front) + b[|b| - 1];
    }
  }

  /** Flatten by its first element. */
  lemma FlattenCons<T>(ss: seq<seq<T>>)
    requires ss != []
    ensures Flatten(ss) == ss[0] + Flatten(ss[1..])
  {
    assert ss == [ss[0]] + ss[1..];
    FlattenAppend([ss[0]], ss[1..]);
    FlattenSingle(ss[0]);
  }

  lemma FlattenSingle<T>(s: seq<T>)
    ensures Flatten([s]) == s
  {
    assert [s][..0] == [];
  }

  /** The bytes of a C string held in a buffer: everything before the first NUL. */
  function CString(b: seq<uint8>): (r: seq<uint8>)
    ensures |r| <= |b| && r == b[..|r|]
    ensures 0 !in r
    ensures |r| < |b| ==> b[|r|] == 0
  {
    if b == [] || b[0] == 0 then [] else [b[0]] + CString(b[1..])
  }

  lemma CStringOfCString(b: seq<uint8>)
    ensures CString(CString(b)) == CString(b)
  {
  }

  /** A path held as bytes, read as text (one char per byte). */
  function AsText(b: seq<uint8>): (t: string)
    ensures |t| == |b|
    ensures forall i :: 0 <= i < |b| ==> t[i] as int == b[i]
  {
    seq(|b|, i requires 0 <= i < |b| => b[i] as char)
  }

  lemma AsTextInjective(a: seq<uint8>, b: seq<uint8>)
    requires AsText(a) == AsText(b)
    ensures a == b
  {
    assert |a| == |b|;
    forall i | 0 <= i < |a| ensures a[i] == b[i] {
      assert AsText(a)[i] == AsText(b)[i];
    }
  }

  /** Text of single-byte characters, as the bytes fprintf writes for it. */
  predicate IsByteText(t: string)
  {
    forall i :: 0 <= i < |t| ==> t[i] as int < 0x100
  }

  /** The bytes of a text written to a file, one per character. */
  function TextBytes(t: string): (b: seq<uint8>)
    requires IsByteText(t)
    ensures |b| == |t|
    ensures forall i :: 0 <= i < |t| ==> b[i] == t[i] as int
  {
    seq(|t|, i requires 0 <= i < |t| => t[i] as int)
  }

  /** Reading back the bytes of a written text gives the text. */
  lemma AsTextOfTextBytes(t: string)
    requires IsByteText(t)
    ensures AsText(TextBytes(t)) == t
  {
  }

  /** The bytes of `dst` with `src` laid over them from index `at` on. */
  function Overwrite(dst: seq<uint8>, at: nat, src: seq<uint8>): (r: seq<uint8>)
    requires at + |src| <= |dst|
    ensures |r| == |dst|
    ensures r[at..at + |src|] == src
    ensures r[..at] == dst[..at] && r[at + |src|..] == dst[at + |src|..]
  {
    dst[..at] + src + dst[at + |src|..]
  }

  /** Overwriting a buffer from its start with as many bytes as it holds
      leaves exactly those bytes. */
  lemma OverwriteWhole(dst: seq<uint8>, src: seq<uint8>)
    requires |src| == |dst|
    ensures Overwrite(dst, 0, src) == src
  {
    assert Overwrite(dst, 0, src) == Overwrite(dst, 0, src)[0..|src|];
  }

  /** memcpy(dst + at, src, |src|) on the buffer's contents: the bytes after
      the copy when it lies inside the buffer, None when it runs past the
      end, which C leaves undefined. */
  function CopyWithin(dst: seq<uint8>, at: nat, src: seq<uint8>): (r: Option<seq<uint8>>)
    ensures r.Some? <==> at + |src| <= |dst|
  {
    if at + |src| <= |dst| then Some(Overwrite(dst, at, src)) else None
  }

  /** memcpy(dst + at, src, |src|), which C allows only inside the buffer. */
  method Copy(dst: array<uint8>, at: nat, src: seq<uint8>)
    requires at + |src| <= dst.Length
    modifies dst
    ensures dst[..] == Overwrite(old(dst[..]), at, src)
  {
    for i := 0 to |src|
      invariant dst[..at] == old(dst[..at])
      invariant dst[at..at + i] == src[..i]
      invariant dst[at + i..] == old(dst[at + i..])
    {
      dst[at + i] := src[i];
      assert dst[at..at + i + 1] == dst[at..at + i] + [src[i]];
      assert src[..i + 1] == src[..i] + [src[i]];
    }
    assert dst[..] == dst[..at] + dst[at..at + |src|] + dst[at + |src|..];
  }
}
