/**
 * The file handle the program reads the container through.
 *
 * `File::read` on a regular file delivers the requested bytes up to the end of
 * the file and advances the position by what it delivered; `seek` to an
 * absolute position or relative to the current one may go past the end. The
 * program never checks how much a read delivered, so after a short read the
 * position lags behind where the field layout says it should be. The lemmas
 * below show that this never changes a value read: once a read falls short,
 * every later position, lagging or not, is at or past the end and reads as 0.
 * This is why the rest of the model reads each field at its fixed offset.
 */
module Stream {
  import opened Bytes

  /** An open container: its bytes and the current file position. */
  datatype Handle = Handle(data: seq<Byte>, pos: nat)

  /** How many bytes `read` delivers for a request of n bytes. */
  function Delivered(h: Handle, n: nat): nat
  {
    if |h.data| <= h.pos then 0
    else if h.pos + n <= |h.data| then n
    else |h.data| - h.pos
  }

  /** `read` into a zeroed buffer of n bytes: the buffer and the moved handle. */
  function Read(h: Handle, n: nat): (seq<Byte>, Handle)
  {
    (Fill(h.data, h.pos, n), h.(pos := h.pos + Delivered(h, n)))
  }

  /** `seek(SeekFrom::Start(p))`. */
  function SeekStart(h: Handle, p: nat): Handle
  {
    h.(pos := p)
  }

  /** `seek(SeekFrom::Current(d))` for the non-negative skips the program uses. */
  function SeekCurrent(h: Handle, d: nat): Handle
  {
    h.(pos := h.pos + d)
  }

  /** `read_u16` on the handle: the value and the moved handle. */
  function ReadU16At(h: Handle): (U16, Handle)
  {
    var (buf, h') := Read(h, 2);
    assert buf == Fill(h.data, h.pos, 2);
    (Bytes.ReadU16(h.data, h.pos), h')
  }

  /** `read_u32` on the handle: the value and the moved handle. */
  function ReadU32At(h: Handle): (U32, Handle)
  {
    var (buf, h') := Read(h, 4);
    assert buf == Fill(h.data, h.pos, 4);
    (Bytes.ReadU32(h.data, h.pos), h')
  }

  /**
   * The position the handle actually has agrees with the position the field
   * layout expects: equal, or both at or past the end of the container.
   */
  predicate Agrees(data: seq<Byte>, actual: nat, expected: nat)
  {
    actual == expected || (|data| <= actual && |data| <= expected)
  }

  /** Reading from an agreeing position reads the expected bytes and keeps agreement. */
  lemma ReadKeepsAgreement(h: Handle, expected: nat, n: nat)
    requires Agrees(h.data, h.pos, expected)
    ensures Read(h, n).0 == Fill(h.data, expected, n)
    ensures Agrees(h.data, Read(h, n).1.pos, expected + n)
  {
    if h.pos != expected {
      FillIsZeroPaddedSlice(h.data, h.pos, n);
      FillIsZeroPaddedSlice(h.data, expected, n);
    }
  }

  /** The fields of one patch record as the scan loop reads them (src/main.rs:140-156). */
  datatype RecordHeader = RecordHeader(tag: U32, length: U32, level: U32, equivId: U16)

  /** Seek to the cursor, read tag and length, skip 4, read level, skip 16, read id. */
  function ReadRecordHeader(h: Handle, cursor: nat): RecordHeader
  {
    var h0 := SeekStart(h, cursor);
    var (tag, h1) := ReadU32At(h0);
    var (length, h2) := ReadU32At(h1);
    var h3 := SeekCurrent(h2, 4);
    var (level, h4) := ReadU32At(h3);
    var h5 := SeekCurrent(h4, 16);
    var (equivId, _) := ReadU16At(h5);
    RecordHeader(tag, length, level, equivId)
  }

  /**
   * Whatever the handle's previous position and however short the container,
   * the record's fields are the values at cursor, cursor+4, cursor+12 and
   * cursor+32, with missing bytes read as 0.
   */
  lemma RecordHeaderAtFixedOffsets(h: Handle, cursor: nat)
    ensures ReadRecordHeader(h, cursor)
         == RecordHeader(ReadU32(h.data, cursor), ReadU32(h.data, cursor + 4),
                         ReadU32(h.data, cursor + 12), ReadU16(h.data, cursor + 32))
  {
    var h0 := SeekStart(h, cursor);
    ReadKeepsAgreement(h0, cursor, 4);
    var h1 := Read(h0, 4).1;
    ReadKeepsAgreement(h1, cursor + 4, 4);
    var h3 := SeekCurrent(Read(h1, 4).1, 4);
    ReadKeepsAgreement(h3, cursor + 12, 4);
    var h5 := SeekCurrent(Read(h3, 4).1, 16);
    ReadKeepsAgreement(h5, cursor + 32, 2);
    assert Agrees(h.data, h5.pos, cursor + 32);
    if h5.pos != cursor + 32 {
      FillIsZeroPaddedSlice(h.data, h5.pos, 2);
      FillIsZeroPaddedSlice(h.data, cursor + 32, 2);
    }
  }

  /** One equivalence-table entry as the table loop reads it (src/main.rs:42-49). */
  function ReadTableEntry(h: Handle, item: nat): (U32, U16)
  {
    var h0 := SeekStart(h, item);
    var (cpuid, h1) := ReadU32At(h0);
    var h2 := SeekCurrent(h1, 8);
    var (equivId, _) := ReadU16At(h2);
    (cpuid, equivId)
  }

  /** The entry's cpuid is the value at `item` and its id the value at `item + 12`. */
  lemma TableEntryAtFixedOffsets(h: Handle, item: nat)
    ensures ReadTableEntry(h, item) == (ReadU32(h.data, item), ReadU16(h.data, item + 12))
  {
    var h0 := SeekStart(h, item);
    ReadKeepsAgreement(h0, item, 4);
    var h2 := SeekCurrent(Read(h0, 4).1, 8);
    assert Agrees(h.data, h2.pos, item + 12);
    if h2.pos != item + 12 {
      FillIsZeroPaddedSlice(h.data, h2.pos, 2);
      FillIsZeroPaddedSlice(h.data, item + 12, 2);
    }
  }
}
