/**
 * CRC-32 as used by the GPT header and entry-array checksums: the reflected
 * polynomial 0xEDB88320 of ISO 3309, register preset to all ones and the
 * result complemented, exactly the value zlib's `crc32` returns.
 */
module Crc32 {
  import opened Bytes

  const Polynomial: bv32 := 0xEDB8_8320

  /** One shift of the reflected CRC register. */
  function Shift(c: bv32): bv32
  {
    if c & 1 == 1 then (c >> 1) ^ Polynomial else c >> 1
  }

  /** `n` shifts of the register; eight of them process one byte. */
  function Shifts(x: bv32, n: nat): bv32
  {
    if n == 0 then x else Shift(Shifts(x, n - 1))
  }

  /** Feeding one byte into the register: xor it into the low bits, then eight shifts. */
  function FeedByte(c: bv32, b: byte): bv32
  {
    Shifts(c ^ (b as bv32), 8)
  }

  /** The register after feeding every byte of `s`, first byte first. */
  function Feed(c: bv32, s: seq<byte>): bv32
    decreases |s|
  {
    if s == [] then c else Feed(FeedByte(c, s[0]), s[1..])
  }

  /**
   * zlib's `crc32(crc, buf, len)`: continue a CRC whose value so far is `crc`
   * over the bytes `s`.
   */
  function Continue(crc: bv32, s: seq<byte>): bv32
  {
    Feed(crc ^ 0xFFFF_FFFF, s) ^ 0xFFFF_FFFF
  }

  /**
   * What `crc32(0, Z_NULL, 0)` returns: zlib answers a call whose buffer is
   * `Z_NULL` with the initial value 0, whatever `crc` it is given.
   */
  const Initial: bv32 := 0

  /** The CRC-32 of `s`, as computed by `crc32(crc32(0, Z_NULL, 0), s, |s|)`. */
  function Crc32(s: seq<byte>): bv32
  {
    Continue(Initial, s)
  }

  /** The same checksum as the unsigned value stored in a 32-bit header field. */
  function Crc32Value(s: seq<byte>): u32
  {
    Crc32(s) as int
  }

  /** Feeding a concatenation is feeding its two parts in turn. */
  lemma {:induction false} FeedAppend(c: bv32, a: seq<byte>, b: seq<byte>)
    ensures Feed(c, a + b) == Feed(Feed(c, a), b)
    decreases |a|
  {
    if a == [] {
      assert a + b == b;
    } else {
      var c' := FeedByte(c, a[0]);
      assert (a + b)[0] == a[0] && (a + b)[1..] == a[1..] + b;
      calc {
        Feed(c, a + b);
        Feed(c', a[1..] + b);
        { FeedAppend(c', a[1..], b); }
        Feed(Feed(c', a[1..]), b);
        Feed(Feed(c, a), b);
      }
    }
  }

  /** Undoing the final complement of `Continue` gives back the register. */
  lemma Uncomplement(crc: bv32, a: seq<byte>)
    ensures Continue(crc, a) ^ 0xFFFF_FFFF == Feed(crc ^ 0xFFFF_FFFF, a)
  {
    XorTwice(Feed(crc ^ 0xFFFF_FFFF, a));
  }

  lemma XorTwice(x: bv32)
    ensures (x ^ 0xFFFF_FFFF) ^ 0xFFFF_FFFF == x
  {
  }

  lemma ContinueFrom(y: bv32, x: bv32, b: seq<byte>)
    requires y ^ 0xFFFF_FFFF == x
    ensures Continue(y, b) == Feed(x, b) ^ 0xFFFF_FFFF
  {
  }

  /** Checksumming a buffer in two calls gives the checksum of the whole buffer. */
  lemma {:induction false} Streaming(crc: bv32, a: seq<byte>, b: seq<byte>)
    ensures Continue(Continue(crc, a), b) == Continue(crc, a + b)
  {
    var x := Feed(crc ^ 0xFFFF_FFFF, a);
    Uncomplement(crc, a);
    ContinueFrom(Continue(crc, a), x, b);
    FeedAppend(crc ^ 0xFFFF_FFFF, a, b);
  }

  /** A single register step, given the xor of register and byte and the result of the eight shifts. */
  lemma FeedByteValue(c: bv32, b: byte, x: bv32, r: bv32)
    requires c ^ (b as bv32) == x
    requires Shifts(x, 8) == r
    ensures FeedByte(c, b) == r
  {
  }

  /** The register value after each of the digits "123" of "123456789". */
  lemma DigitStepsLow()
    ensures FeedByte(0xffffffff, 0x31) == 0x7c231048
    ensures FeedByte(0x7c231048, 0x32) == 0xb0acbb32
    ensures FeedByte(0xb0acbb32, 0x33) == 0x77b79c2d
  {
    FeedByteValue(0xffffffff, 0x31, 0xffffffce, 0x7c231048);
    FeedByteValue(0x7c231048, 0x32, 0x7c23107a, 0xb0acbb32);
    FeedByteValue(0xb0acbb32, 0x33, 0xb0acbb01, 0x77b79c2d);
  }

  /** The register value after each of the digits "456". */
  lemma DigitStepsMiddle()
    ensures FeedByte(0x77b79c2d, 0x34) == 0x641c1f5c
    ensures FeedByte(0x641c1f5c, 0x35) == 0x340ac5e3
    ensures FeedByte(0x340ac5e3, 0x36) == 0xf68d2c9e
  {
    FeedByteValue(0x77b79c2d, 0x34, 0x77b79c19, 0x641c1f5c);
    FeedByteValue(0x641c1f5c, 0x35, 0x641c1f69, 0x340ac5e3);
    FeedByteValue(0x340ac5e3, 0x36, 0x340ac5d5, 0xf68d2c9e);
  }

  /** The register value after each of the digits "789". */
  lemma DigitStepsHigh()
    ensures FeedByte(0xf68d2c9e, 0x37) == 0xaffc9660
    ensures FeedByte(0xaffc9660, 0x38) == 0x651f2550
    ensures FeedByte(0x651f2550, 0x39) == 0x340bc6d9
  {
    FeedByteValue(0xf68d2c9e, 0x37, 0xf68d2ca9, 0xaffc9660);
    FeedByteValue(0xaffc9660, 0x38, 0xaffc9658, 0x651f2550);
    FeedByteValue(0x651f2550, 0x39, 0x651f2569, 0x340bc6d9);
  }

  /**
   * Feeding `s` walks the register through `regs`: if each byte takes
   * `regs[i]` to `regs[i + 1]`, the whole sequence takes `regs[0]` to the last.
   */
  lemma {:induction false} FeedThrough(s: seq<byte>, regs: seq<bv32>)
    requires |regs| == |s| + 1
    requires forall i :: 0 <= i < |s| ==> FeedByte(regs[i], s[i]) == regs[i + 1]
    ensures Feed(regs[0], s) == regs[|s|]
    decreases |s|
  {
    if s != [] {
      assert FeedByte(regs[0], s[0]) == regs[1];
      FeedThrough(s[1..], regs[1..]);
    }
  }

  /** The standard check value: the CRC-32 of the ASCII digits "123456789" is 0xCBF43926. */
  lemma CheckValue()
    ensures Crc32([0x31, 0x32, 0x33, 0x34, 0x35, 0x36, 0x37, 0x38, 0x39]) == 0xCBF4_3926
  {
    var digits: seq<byte> := [0x31, 0x32, 0x33, 0x34, 0x35, 0x36, 0x37, 0x38, 0x39];
    var regs: seq<bv32> := [0xffffffff, 0x7c231048, 0xb0acbb32, 0x77b79c2d, 0x641c1f5c,
                            0x340ac5e3, 0xf68d2c9e, 0xaffc9660, 0x651f2550, 0x340bc6d9];
    DigitStepsLow();
    DigitStepsMiddle();
    DigitStepsHigh();
    FeedThrough(digits, regs);
    assert 0x340b_c6d9 ^ 0xFFFF_FFFF == 0xCBF4_3926 as bv32;
  }
}
