# amd_ucode_info: a verified model of the AMD microcode container decoder

`amd_ucode_info` reads an AMD microcode container and reports, for each patch
it holds, the CPU family, model and stepping it targets, its patch level and its
length. It can also write each patch's raw bytes to a file. This project models
the decoder at the heart of `src/main.rs` in Dafny and proves properties of it.

The container is an immutable byte sequence (`seq<Byte>`, bytes as integers
0..255). The model has these parts:

- `Bytes` (bytes.dfy): `read_u16` and `read_u32` as little-endian decoding of
  a zero-initialised buffer. The program never checks how many bytes
  `File::read` delivered, so positions at or past the end of the container read
  as 0. The model keeps this zero-fill behaviour and does not treat truncation as
  an error.
- `Stream` (stream.dfy): the file position as the program moves it. A short
  read advances the position only by what it delivered, and later
  `seek(Current(n))` calls are relative to that. The lemmas show that the record
  loop and the table loop still read every field at its fixed offset, whatever
  the previous position was. This is why the other modules read fields at
  fixed offsets.
- `Cpuid` (cpuid.dfy): `fms`, computed on `bv32` with the program's own shifts
  and masks, and related to the bit fields of the packed identifier.
- `EquivTable` (equiv_table.dfy): `parse_equiv_table` as a method with the
  program's `while` loop over 16-byte entries. It is specified by `TableOf`, and
  the lemmas characterise that function: 0 is never a key, which ids are keys,
  and that the last entry with a given id wins.
- `Extract` (extract.dfy): the data part of `extract_patch`. This is the payload
  slice, zero-padded past the end of the container, and the file name
  `mc_patch_0x<lowercase hex level>.bin`.
- `Scanner` (scanner.dfy): the magic check, the table length byte and the
  record scan of `main`. The scan is a method with the program's loop, `break`
  and `continue`, proved equal to the specification function `ScanFrom`. Its
  output is a sequence of events: a report line, an extracted file, a
  missing-id warning, or an invalid-type message. Lemmas describe the cursors
  the scan visits and which records get reported.
- `Container` (container.dfy): an encoder for well-formed containers and the
  round trip `Decode(Encode(entries, records)) == Ok(Expected(...))`. It also has
  the two scenarios "an unresolved record is skipped" and "a bad tag ends the
  scan", stated as instances of the round trip.

Where the prose description of the format and the code differ, the model
follows the code:

- A read past the end of the file gives zeros, not an error. So a 3-byte file
  `DMA` passes the magic check and decodes to no events
  (`Scanner.ThreeByteContainerAccepted`).
- The model number uses bits 19:16 of the identifier as its high nibble,
  because `(cpuid >> 12) & 0xF0` keeps only those bits. It does not use bits
  19:12.
- `0x00800F12` decodes to family 0x17 (0xF + 0x08), model 0x01 and
  stepping 0x2 (`Cpuid.FmsFamily17Example`). The family-19h example
  `0x00A20F12` decodes to (0x19, 0x21, 0x2) (`Cpuid.FmsFamily19Example`).

## Model

| member | source | states |
|---|---|---|
| Bytes.FillIsZeroPaddedSlice | src/main.rs:76-81 | a read into a zeroed n-byte buffer at `off` gives the container's slice when it lies inside the container; the slice followed by zeros when it runs past the end; all zeros when it starts at or past the end |
| Bytes.FromLE | src/main.rs:25 | the little-endian value of an n-byte buffer is below 256^n |
| Bytes.FromLEOfToLE | src/main.rs:32 | decoding the n-byte little-endian encoding of any value below 256^n gives that value back |
| Bytes.ToLEOfFromLE | src/main.rs:32 | re-encoding a decoded buffer gives the buffer back, so the decoding loses nothing |
| Bytes.ReadU16 | src/main.rs:21-26 | `read_u16` is b0 + 256·b1 of the bytes at `off`, where missing bytes count as 0; it is below 2^16 and is 0 at or past the end |
| Bytes.ReadU32 | src/main.rs:28-33 | `read_u32` is b0 + 2^8·b1 + 2^16·b2 + 2^24·b3, where missing bytes count as 0; it is below 2^32 and is 0 at or past the end |
| Bytes.ReadU16OfEncoded | src/main.rs:21-26 | a 16-bit value stored little-endian at `off` reads back as itself |
| Bytes.ReadU32OfEncoded | src/main.rs:28-33 | a 32-bit value stored little-endian at `off` reads back as itself |
| Stream.ReadKeepsAgreement | src/main.rs:23 | a read from a position that agrees with the expected one (equal, or both at or past the end) yields the expected bytes and leaves positions that still agree |
| Stream.RecordHeaderAtFixedOffsets | src/main.rs:140-156 | the seek/read sequence of the record loop yields the tag, length, level and id at cursor, cursor+4, cursor+12 and cursor+32, whatever the handle's earlier position, even after short reads |
| Stream.TableEntryAtFixedOffsets | src/main.rs:42-49 | the table loop's seek/read sequence yields the cpuid at the entry start and the id 12 bytes later |
| Cpuid.FmsBounds | src/main.rs:92-98 | stepping < 16, model ≤ 0xFF, family ≤ 270, and the family sum does not wrap in 32 bits |
| Cpuid.FmsOfFields | src/main.rs:92-98 | `fms` gives family = base family + extended family, model = base model with the extended model (bits 19:16) as high nibble, and stepping = bits 3:0 |
| Cpuid.PackUnpack | src/main.rs:91 | every 32-bit identifier is the packing of its stepping, model, family and reserved fields |
| Cpuid.UnpackPack | src/main.rs:91 | the fields are recovered from their packing, so the field layout is a bijection |
| Cpuid.FmsIgnoresReservedBits | src/main.rs:92-98 | identifiers that differ only in the reserved bits 15:12 and 31:28 decode alike |
| Cpuid.FmsFamily19Example | src/main.rs:92-98 | 0x00A20F12 decodes to family 0x19, model 0x21, stepping 0x2 |
| Cpuid.FmsFamily17Example | src/main.rs:92-98 | 0x00800F12 decodes to family 0x17, model 0x01, stepping 0x2 |
| EquivTable.EntryVisitedIff | src/main.rs:38-41 | entry k is visited exactly when 12 + 16k < 12 + table_len, that is, for the first ceil(table_len/16) entries |
| EquivTable.ParseEquivTable | src/main.rs:35-59 | the loop builds exactly the table of the first ceil(table_len/16) entries; with table_len = 0 the table is empty |
| EquivTable.ZeroNotInTable | src/main.rs:51-53 | id 0 is never a key |
| EquivTable.InTableIff | src/main.rs:41-56 | an id is a key exactly when it is non-zero and some visited entry carries it (both directions) |
| EquivTable.LastEntryWins | src/main.rs:51-53 | an id maps to the cpuid of the last visited entry carrying it |
| EquivTable.ValueFromItsEntry | src/main.rs:44-53 | every key maps to the cpuid stored 12 bytes before an occurrence of that key in the table |
| Extract.Hex | src/main.rs:72 | the `{:#x}` digits are non-empty lowercase hex digits, with no leading zero unless the level is 0 |
| Extract.ParseHexOfHex | src/main.rs:72 | the digits read back as the level they were made from |
| Extract.HexLength | src/main.rs:72 | a value below 16^k takes at most k digits |
| Extract.FileNameDeterminesLevel | src/main.rs:72 | different levels give different file names, so one extraction never overwrites another's file unless both have the same level; a name is at most 23 characters |
| Extract.ExtractPatch | src/main.rs:74-84 | the written bytes are exactly `[patch_start, patch_start + length)` of the container, zero-padded past its end, and the name is `mc_patch_0x<hex level>.bin` |
| Scanner.NextCursor | src/main.rs:162 | every record that does not end the scan moves the cursor at least 8 bytes on |
| Scanner.ScanRecord | src/main.rs:139-175 | one pass of the loop body produces the events of the record at the cursor, stops exactly when the tag is not 1, and otherwise moves the cursor by length + 8 |
| Scanner.ScanPatches | src/main.rs:135-176 | the record loop, with its `break` and `continue`, emits exactly `ScanFrom(start)` |
| Scanner.Run | src/main.rs:110-178 | the run fails exactly when the first four bytes (zero-filled) are not `44 4D 41 00`, and then no table or record output exists; otherwise it yields the scan from 12 + table_len over the parsed table |
| Scanner.ThreeByteContainerAccepted | src/main.rs:113-121 | the 3-byte file "DMA" passes the magic check and reports nothing |
| Scanner.VisitedShape | src/main.rs:135-176 | the visited cursors start at the first cursor, lie inside the container, each follows the previous one by its length + 8, all but the last carry tag 1, and the scan ends on a bad tag or at the end |
| Scanner.VisitedIncreasing | src/main.rs:162-175 | k records on, the cursor has moved at least 8k bytes, so the cursor strictly increases |
| Scanner.ScanIsEventsOfVisited | src/main.rs:138-176 | the scan's output is the concatenation of the visited records' events in file order |
| Scanner.ReportedAreResolvedVisited | src/main.rs:145-169 | the report lines are exactly those of the visited type-1 records whose id resolves, in file order, and nothing after a bad tag |
| Scanner.ZeroIdRecordSkipped | src/main.rs:158-164 | a type-1 record with id 0 is reported missing and the scan continues at the next record |
| Scanner.EmptyTableReportsNothing | src/main.rs:158-165 | with an empty table no record is reported |
| Scanner.ZeroTableLength | src/main.rs:126-138 | a table length of 0 gives an empty table, a first record at offset 12, and no reports |
| Container.HeaderOfEncoded | src/main.rs:113-131 | an encoded container passes the magic check, and its length byte is 16 times the number of entries |
| Container.TableOfEncoded | src/main.rs:35-59 | the table parsed from encoded entries is the last-wins map of their non-zero ids |
| Container.TableOfEncodedContainer | src/main.rs:126-133 | the table of an encoded container is the one its entries describe |
| Container.RecordFields | src/main.rs:140-156 | an encoded record reads back its tag, length, level and id, its payload is the extracted bytes, and the next cursor is right after it |
| Container.RecordEvents | src/main.rs:143-173 | the events of an encoded record are the expected ones |
| Container.ScanOfEncoded | src/main.rs:138-176 | scanning encoded records gives, in order, each record's expected events up to the first bad tag |
| Container.DecodeOfLayout | src/main.rs:110-178 | a container laid out as header, table and records decodes to the expected events |
| Container.DecodeOfEncode | src/main.rs:110-178 | round trip: decoding an encoded container reports each resolved record and warns on each unresolved one, in order, stopping at the first bad tag; when extracting, each payload comes back byte for byte |
| Container.UnresolvedRecordSkipped | src/main.rs:158-175 | of two records where the first id is missing from the table, exactly one patch is reported, the second |
| Container.BadTagEndsScan | src/main.rs:143-148 | after one resolved record, a record tagged 2 ends the scan successfully; exactly one patch is reported and the last event is the invalid-type event |

## Left out

- Command-line parsing, help text, the existence check on the input path and
  `process::exit` (src/opt.rs). src/opt.rs is not part of this model.
- Opening the file, `fs::create_dir`, joining the output directory to the file
  name, `File::create` and `write_all` (src/main.rs:68-70, 83-84).
- Extract.ExtractPatch is modelled on values. It returns the file name and the
  bytes; the file is not written. Failures while writing, which would end the
  run, are not modelled.
- Errors that `open`, `seek` and `read` might return on a regular file. Such
  an error would abort the run through `?`. Reads are assumed to deliver every
  byte up to the end of the data.
- The text of `println!`/`eprintln!` lines and which of stdout or stderr they
  go to. Each line is an event. The header line naming the input file
  (src/main.rs:106-108) is not an event.
- Scanner.ScanPatches: the cursor is an unbounded integer. A `u64` overflow of
  `cursor + length + 8` would need a file of about 2^64 bytes.
- Stream.SeekCurrent covers only the non-negative skips the program uses.
