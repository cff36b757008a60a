/**
 * Fixed-width unsigned integers, their explicit little-endian serialisation,
 * and C string length. Every on-disk record in this model is built from these
 * rather than from an overlaid memory layout.
 */
module Bytes {

  type byte = x: int | 0 <= x < 0x100
  type u16 = x: int | 0 <= x < 0x1_0000
  type u32 = x: int | 0 <= x < 0x1_0000_0000
  type u64 = x: int | 0 <= x < 0x1_0000_0000_0000_0000

  const TwoTo32: nat := 0x1_0000_0000

  /** 256 to the power `w`: one more than the largest value `w` bytes can hold. */
  function Pow256(w: nat): nat
  {
    if w == 0 then 1 else 256 * Pow256(w - 1)
  }

  /** The `width` low-order bytes of `n`, least significant first. */
  function LittleEndian(n: nat, width: nat): (r: seq<byte>)
    ensures |r| == width
    ensures width > 0 ==> r[0] == n % 256
  {
    if width == 0 then [] else [n % 256] + LittleEndian(n / 256, width - 1)
  }

  /** The number whose little-endian bytes are `s`. */
  function FromLittleEndian(s: seq<byte>): (n: nat)
    ensures n < Pow256(|s|)
  {
    if s == [] then 0 else s[0] + 256 * FromLittleEndian(s[1..])
  }

  /** Decoding the encoding of a value that fits recovers the value. */
  lemma {:induction false} FromLittleEndianInverse(n: nat, width: nat)
    requires n < Pow256(width)
    ensures FromLittleEndian(LittleEndian(n, width)) == n
  {
    if width > 0 {
      var s := LittleEndian(n, width);
      assert s[1..] == LittleEndian(n / 256, width - 1);
      FromLittleEndianInverse(n / 256, width - 1);
    }
  }

  /** Encoding a decoded byte string gives the string back. */
  lemma {:induction false} LittleEndianInverse(s: seq<byte>)
    ensures LittleEndian(FromLittleEndian(s), |s|) == s
  {
    if s != [] {
      var n := FromLittleEndian(s);
      assert n % 256 == s[0] && n / 256 == FromLittleEndian(s[1..]);
      LittleEndianInverse(s[1..]);
    }
  }

  function LE16(n: u16): (r: seq<byte>)
    ensures |r| == 2
  {
    FromLittleEndianInverse(n, 2);
    LittleEndian(n, 2)
  }

  function LE32(n: u32): (r: seq<byte>)
    ensures |r| == 4
  {
    FromLittleEndianInverse(n, 4);
    LittleEndian(n, 4)
  }

  function LE64(n: u64): (r: seq<byte>)
    ensures |r| == 8
  {
    FromLittleEndianInverse(n, 8);
    LittleEndian(n, 8)
  }

  /** Reading an encoded two-, four- or eight-byte field back gives its value. */
  lemma LE16Value(n: u16)
    ensures ReadLE16(LE16(n)) == n
  {
    FromLittleEndianInverse(n, 2);
  }

  lemma LE32Value(n: u32)
    ensures ReadLE32(LE32(n)) == n
  {
    FromLittleEndianInverse(n, 4);
  }

  lemma LE64Value(n: u64)
    ensures ReadLE64(LE64(n)) == n
  {
    FromLittleEndianInverse(n, 8);
  }

  /** Reading a two-, four- or eight-byte field back as a typed value. */
  function ReadLE16(s: seq<byte>): (n: u16)
    requires |s| == 2
    ensures LE16(n) == s
  {
    LittleEndianInverse(s);
    FromLittleEndian(s)
  }

  function ReadLE32(s: seq<byte>): (n: u32)
    requires |s| == 4
    ensures LE32(n) == s
  {
    LittleEndianInverse(s);
    FromLittleEndian(s)
  }

  function ReadLE64(s: seq<byte>): (n: u64)
    requires |s| == 8
    ensures LE64(n) == s
  {
    LittleEndianInverse(s);
    FromLittleEndian(s)
  }

  /** `n` zero bytes. */
  function Zeros(n: nat): (r: seq<byte>)
    ensures |r| == n && forall i :: 0 <= i < n ==> r[i] == 0
  {
    seq(n, i => 0)
  }

  /** `n` ASCII spaces, the padding of an 8.3 name. */
  function Spaces(n: nat): (r: seq<byte>)
    ensures |r| == n && forall i :: 0 <= i < n ==> r[i] == 0x20
  {
    seq(n, i => 0x20)
  }

  /**
   * C `strlen`: the number of bytes before the first NUL, or the whole
   * sequence when it holds none.
   */
  function Strlen(s: seq<byte>): (n: nat)
    ensures n <= |s|
    ensures forall i :: 0 <= i < n ==> s[i] != 0
    ensures n < |s| ==> s[n] == 0
  {
    if s == [] || s[0] == 0 then 0 else 1 + Strlen(s[1..])
  }

  /** A slice of the part `s[lo..hi]` is a slice of `s`. */
  lemma SliceOfSlice(s: seq<byte>, lo: nat, hi: nat, i: nat, j: nat)
    requires lo <= hi <= |s| && lo <= i <= j <= hi
    ensures s[lo..hi][i - lo..j - lo] == s[i..j]
  {
    var part := s[lo..hi][i - lo..j - lo];
    assert forall k :: 0 <= k < j - i ==> part[k] == s[i..j][k];
  }

  /** The ASCII bytes of a string literal that holds only 7-bit characters. */
  function Ascii(s: string): (r: seq<byte>)
    requires forall i :: 0 <= i < |s| ==> 0 as char < s[i] < 128 as char
    ensures |r| == |s| && forall i :: 0 <= i < |s| ==> r[i] == s[i] as int && 0 < r[i] < 128
  {
    seq(|s|, i requires 0 <= i < |s| => s[i] as int)
  }

  /** Each part of a four-part concatenation is found at its offset. */
  lemma ConcatParts(a: seq<byte>, b: seq<byte>, c: seq<byte>, d: seq<byte>)
    ensures var r := a + b + c + d;
            && r[..|a|] == a && r[|a|..|a| + |b|] == b
            && r[|a| + |b|..|a| + |b| + |c|] == c && r[|a| + |b| + |c|..] == d
  {
  }

  function Min(a: nat, b: nat): nat { if a < b then a else b }
}
