/**
 * Byte-level access to a microcode container.
 *
 * The container is an immutable sequence of bytes. Every fixed-width read in
 * the program goes into a zero-initialised buffer and ignores how many bytes
 * `File::read` actually delivered, so a position at or past the end of the
 * container reads as 0. `Fill` models that buffer; `ReadU16` and `ReadU32` decode
 * it as little-endian, as `u16::from_le_bytes` and `u32::from_le_bytes` do.
 */
module Bytes {

  type Byte = b: int | 0 <= b < 0x100
  type U16 = x: int | 0 <= x < 0x1_0000
  type U32 = x: int | 0 <= x < 0x1_0000_0000

  /** 256 to the power n. */
  function Pow256(n: nat): (p: nat)
    ensures p >= 1
  {
    if n == 0 then 1 else 256 * Pow256(n - 1)
  }

  /** The byte at position i, or 0 when i is at or past the end of the container. */
  function ByteAt(data: seq<Byte>, i: nat): Byte
  {
    if i < |data| then data[i] else 0
  }

  /** n zero bytes: a freshly allocated `[0u8; n]`. */
  function Zeros(n: nat): (z: seq<Byte>)
    ensures |z| == n
    ensures forall i :: 0 <= i < n ==> z[i] == 0
  {
    seq<Byte>(n, i => 0)
  }

  /**
   * The buffer of n bytes left by seeking to `off` and reading into a zeroed
   * buffer: the container's bytes where it has them, zeros after its end.
   */
  function Fill(data: seq<Byte>, off: nat, n: nat): seq<Byte>
  {
    seq<Byte>(n, i requires 0 <= i < n => ByteAt(data, off + i))
  }

  /** Fill is the slice of the container, zero-padded past its end. */
  lemma FillIsZeroPaddedSlice(data: seq<Byte>, off: nat, n: nat)
    ensures |Fill(data, off, n)| == n
    ensures off + n <= |data| ==> Fill(data, off, n) == data[off..off + n]
    ensures off <= |data| <= off + n ==>
              Fill(data, off, n) == data[off..] + Zeros(off + n - |data|)
    ensures |data| <= off ==> Fill(data, off, n) == Zeros(n)
  {
    var f := Fill(data, off, n);
    assert forall i :: 0 <= i < n ==> f[i] == ByteAt(data, off + i);
    if |data| <= off {
      assert forall i :: 0 <= i < n ==> f[i] == Zeros(n)[i];
    }
    if off + n <= |data| {
      assert forall i :: 0 <= i < n ==> f[i] == data[off..off + n][i];
    }
    if off <= |data| <= off + n {
      var g := data[off..] + Zeros(off + n - |data|);
      assert |g| == n;
      forall i | 0 <= i < n
        ensures f[i] == g[i]
      {
        if off + i < |data| {
          assert g[i] == data[off..][i];
        } else {
          assert g[i] == Zeros(off + n - |data|)[i - (|data| - off)];
        }
      }
    }
  }

  /** Little-endian value of a byte buffer: the sum of b[i] * 256^i. */
  function FromLE(b: seq<Byte>): (v: nat)
    ensures v < Pow256(|b|)
  {
    if b == [] then 0 else b[0] + 256 * FromLE(b[1..])
  }

  /** The n-byte little-endian encoding of v (the inverse of FromLE). */
  function ToLE(v: nat, n: nat): (b: seq<Byte>)
    ensures |b| == n
  {
    if n == 0 then [] else [v % 256] + ToLE(v / 256, n - 1)
  }

  /** Decoding an encoding gives back every value that fits in n bytes. */
  lemma {:induction false} FromLEOfToLE(v: nat, n: nat)
    requires v < Pow256(n)
    ensures FromLE(ToLE(v, n)) == v
  {
    if n > 0 {
      FromLEOfToLE(v / 256, n - 1);
      assert ToLE(v, n)[1..] == ToLE(v / 256, n - 1);
    }
  }

  /** Encoding a decoded buffer gives back the buffer. */
  lemma {:induction false} ToLEOfFromLE(b: seq<Byte>)
    ensures ToLE(FromLE(b), |b|) == b
  {
    if b != [] {
      ToLEOfFromLE(b[1..]);
      assert (b[0] + 256 * FromLE(b[1..])) / 256 == FromLE(b[1..]);
      assert b == [b[0]] + b[1..];
    }
  }

  /** `read_u16`: the two bytes at `off`, little-endian, missing bytes read as 0. */
  function ReadU16(data: seq<Byte>, off: nat): (r: U16)
    ensures r == ByteAt(data, off) + 0x100 * ByteAt(data, off + 1)
    ensures |data| <= off ==> r == 0
  {
    var b := Fill(data, off, 2);
    assert FromLE(b[1..]) == b[1] + 0x100 * FromLE(b[2..]) by { assert b[1..][1..] == b[2..]; }
    FromLE(b)
  }

  /** `read_u32`: the four bytes at `off`, little-endian, missing bytes read as 0. */
  function ReadU32(data: seq<Byte>, off: nat): (r: U32)
    ensures r == ByteAt(data, off) + 0x100 * ByteAt(data, off + 1)
                 + 0x1_0000 * ByteAt(data, off + 2) + 0x100_0000 * ByteAt(data, off + 3)
    ensures |data| <= off ==> r == 0
  {
    var b := Fill(data, off, 4);
    assert FromLE(b[1..]) == b[1] + 0x100 * FromLE(b[2..]) by { assert b[1..][1..] == b[2..]; }
    assert FromLE(b[2..]) == b[2] + 0x100 * FromLE(b[3..]) by { assert b[2..][1..] == b[3..]; }
    assert FromLE(b[3..]) == b[3] + 0x100 * FromLE(b[4..]) by { assert b[3..][1..] == b[4..]; }
    FromLE(b)
  }

  /** A 16-bit field stored little-endian at `off` reads back as its value. */
  lemma ReadU16OfEncoded(data: seq<Byte>, off: nat, v: U16)
    requires off + 2 <= |data| && data[off..off + 2] == ToLE(v, 2)
    ensures ReadU16(data, off) == v
  {
    FillIsZeroPaddedSlice(data, off, 2);
    FromLEOfToLE(v, 2);
  }

  /** A 32-bit field stored little-endian at `off` reads back as its value. */
  lemma ReadU32OfEncoded(data: seq<Byte>, off: nat, v: U32)
    requires off + 4 <= |data| && data[off..off + 4] == ToLE(v, 4)
    ensures ReadU32(data, off) == v
  {
    FillIsZeroPaddedSlice(data, off, 4);
    FromLEOfToLE(v, 4);
  }
}
