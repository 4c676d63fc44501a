/**
 * The data part of patch extraction (`extract_patch`, src/main.rs:61-89): the
 * bytes written to the output file and the file's name. The payload is read
 * into a zero-initialised buffer of `patch_length` bytes, so it is the
 * container's slice zero-padded past the end of the container. The name is
 * `mc_patch_` followed by the patch level formatted with `{:#x}`: `0x` and the
 * lowercase hexadecimal digits without leading zeros.
 */
module Extract {
  import opened Bytes

  predicate IsHexDigit(c: char)
  {
    '0' <= c <= '9' || 'a' <= c <= 'f'
  }

  function HexDigit(d: nat): (c: char)
    requires d < 16
    ensures IsHexDigit(c)
  {
    "0123456789abcdef"[d]
  }

  function DigitValue(c: char): (d: nat)
    requires IsHexDigit(c)
    ensures d < 16
  {
    if c <= '9' then (c - '0') as nat else (c - 'a') as nat + 10
  }

  /** Lowercase hexadecimal digits of n, without leading zeros ("0" for zero). */
  function Hex(n: nat): (s: string)
    ensures |s| >= 1
    ensures forall i :: 0 <= i < |s| ==> IsHexDigit(s[i])
    ensures s[0] == '0' ==> n == 0
    decreases n
  {
    if n < 16 then [HexDigit(n)] else Hex(n / 16) + [HexDigit(n % 16)]
  }

  /** Reads a string of hexadecimal digits back as a number. */
  function ParseHex(s: string): nat
    requires forall i :: 0 <= i < |s| ==> IsHexDigit(s[i])
  {
    if s == [] then 0 else 16 * ParseHex(s[..|s| - 1]) + DigitValue(s[|s| - 1])
  }

  /** The digits read back as the number they were made from. */
  lemma {:induction false} ParseHexOfHex(n: nat)
    ensures ParseHex(Hex(n)) == n
    decreases n
  {
    var s := Hex(n);
    if n < 16 {
      assert s[..0] == [];
      assert DigitValue(HexDigit(n)) == n;
    } else {
      ParseHexOfHex(n / 16);
      assert s[..|s| - 1] == Hex(n / 16);
      assert DigitValue(HexDigit(n % 16)) == n % 16;
    }
  }

  /** 16 to the power k. */
  function Pow16(k: nat): (p: nat)
    ensures p >= 1
  {
    if k == 0 then 1 else 16 * Pow16(k - 1)
  }

  /** A number below 16^k takes at most k digits. */
  lemma {:induction false} HexLength(n: nat, k: nat)
    requires 1 <= k && n < Pow16(k)
    ensures |Hex(n)| <= k
    decreases n
  {
    if n >= 16 {
      HexLength(n / 16, k - 1);
    }
  }

  /** The file name for a patch level: `mc_patch_0x<level in lowercase hex>.bin`. */
  function PatchFileName(level: U32): string
  {
    "mc_patch_0x" + Hex(level) + ".bin"
  }

  /**
   * The file name determines the level: patches with different levels are
   * written to different files, and a name is at most 8 digits long.
   */
  lemma FileNameDeterminesLevel(a: U32, b: U32)
    ensures PatchFileName(a) == PatchFileName(b) ==> a == b
    ensures |PatchFileName(a)| <= 23
  {
    if PatchFileName(a) == PatchFileName(b) {
      assert |Hex(a)| == |Hex(b)|;
      assert Hex(a) == PatchFileName(a)[11..11 + |Hex(a)|];
      assert Hex(b) == PatchFileName(b)[11..11 + |Hex(b)|];
      ParseHexOfHex(a);
      ParseHexOfHex(b);
    }
    assert Pow16(8) == 0x1_0000_0000;
    HexLength(a, 8);
  }

  /** What extracting one patch produces: the output file's name and its bytes. */
  datatype ExtractedPatch = ExtractedPatch(fileName: string, payload: seq<Byte>)

  /**
   * `extract_patch` without the file system: the payload is exactly the bytes
   * [patchStart, patchStart + patchLength) of the container, zero-padded past
   * its end.
   */
  function ExtractPatch(data: seq<Byte>, patchStart: nat, patchLength: U32, level: U32): (e: ExtractedPatch)
    ensures |e.payload| == patchLength
    ensures forall i :: 0 <= i < patchLength ==> e.payload[i] == ByteAt(data, patchStart + i)
    ensures patchStart + patchLength <= |data| ==> e.payload == data[patchStart..patchStart + patchLength]
    ensures patchStart <= |data| <= patchStart + patchLength ==>
              e.payload == data[patchStart..] + Zeros(patchStart + patchLength - |data|)
    ensures e.fileName == PatchFileName(level)
  {
    FillIsZeroPaddedSlice(data, patchStart, patchLength);
    ExtractedPatch(PatchFileName(level), Fill(data, patchStart, patchLength))
  }
}
