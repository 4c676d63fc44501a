/**
 * An encoder for well-formed containers, and the theorem that the decoder
 * reads back what was encoded.
 *
 * A well-formed container is the 12-byte header ("DMA\0", four bytes, the
 * table length byte, three bytes), the equivalence table as 16-byte entries
 * (cpuid, 8 bytes of errata mask and compare fields, id, 2 bytes) and the
 * patch records, each a type tag, a payload length and a payload whose bytes
 * 4..8 hold the patch level and bytes 24..26 the equivalence id.
 */
module Container {
  import opened Bytes
  import opened Cpuid
  import opened EquivTable
  import opened Extract
  import opened Scanner

  /** An equivalence-table entry. */
  datatype Entry = Entry(cpuid: U32, equivId: U16)

  /** A patch record; `rest` is the payload after the 26 bytes that hold level and id. */
  datatype Record = Record(tag: U32, level: U32, equivId: U16, rest: seq<Byte>)

  /** The payload: 4 bytes, the level, 16 bytes, the id, the rest. */
  function Payload(r: Record): (p: seq<Byte>)
    ensures |p| == 26 + |r.rest|
  {
    Zeros(4) + ToLE(r.level, 4) + Zeros(16) + ToLE(r.equivId, 2) + r.rest
  }

  /** The payload length fits the 32-bit length field. */
  predicate Fits(r: Record)
  {
    26 + |r.rest| < 0x1_0000_0000
  }

  predicate AllFit(rs: seq<Record>)
  {
    forall i :: 0 <= i < |rs| ==> Fits(rs[i])
  }

  function EncodeEntry(e: Entry): (b: seq<Byte>)
    ensures |b| == 16
  {
    ToLE(e.cpuid, 4) + Zeros(8) + ToLE(e.equivId, 2) + Zeros(2)
  }

  function EncodeEntries(es: seq<Entry>): (b: seq<Byte>)
    ensures |b| == 16 * |es|
  {
    if es == [] then [] else EncodeEntries(es[..|es| - 1]) + EncodeEntry(es[|es| - 1])
  }

  function EncodeRecord(r: Record): (b: seq<Byte>)
    requires Fits(r)
    ensures |b| == 8 + |Payload(r)|
  {
    ToLE(r.tag, 4) + ToLE(|Payload(r)|, 4) + Payload(r)
  }

  function EncodeRecords(rs: seq<Record>): seq<Byte>
    requires AllFit(rs)
  {
    if rs == [] then [] else EncodeRecord(rs[0]) + EncodeRecords(rs[1..])
  }

  /** The 12-byte header for a table of `tableLen` bytes. */
  function Header(tableLen: Byte): (b: seq<Byte>)
    ensures |b| == 12
  {
    Magic + Zeros(4) + [tableLen] + Zeros(3)
  }

  /** The container holding the given entries and records; the table holds at most 15 entries. */
  function Encode(es: seq<Entry>, rs: seq<Record>): seq<Byte>
    requires |es| <= 15 && AllFit(rs)
  {
    Header(16 * |es|) + EncodeEntries(es) + EncodeRecords(rs)
  }

  /** The table the entries describe: non-zero ids, a later entry overriding an earlier one. */
  function TableFromEntries(es: seq<Entry>): Table
  {
    if es == [] then map[]
    else
      var t := TableFromEntries(es[..|es| - 1]);
      var e := es[|es| - 1];
      if e.equivId != 0 then t[e.equivId := e.cpuid] else t
  }

  /** The events the decoder should produce for one record, given the table. */
  function ExpectedAt(table: Table, r: Record, extract: bool): seq<Event>
    requires Fits(r)
  {
    if r.tag != PatchTypeTag then [InvalidPatchType(r.tag)]
    else if r.equivId !in table then [MissingEquivId(r.equivId)]
    else
      var s := Fms(AsBits(table[r.equivId]));
      [PatchFound(s.family, s.model, s.stepping, r.level, |Payload(r)|)]
      + if extract then [PatchExtracted(ExtractedPatch(PatchFileName(r.level), Payload(r)))] else []
  }

  /** The events the decoder should produce for the records: up to the first tag other than 1. */
  function Expected(table: Table, rs: seq<Record>, extract: bool): seq<Event>
    requires AllFit(rs)
  {
    if rs == [] then []
    else if rs[0].tag != PatchTypeTag then ExpectedAt(table, rs[0], extract)
    else ExpectedAt(table, rs[0], extract) + Expected(table, rs[1..], extract)
  }

  // ---------------------------------------------------------------------------
  // Locating encoded pieces in the container

  /** The bytes b stand in the container at offset o. */
  predicate At(data: seq<Byte>, o: nat, b: seq<Byte>)
  {
    o + |b| <= |data| && data[o..o + |b|] == b
  }

  lemma AtSplit(data: seq<Byte>, o: nat, a: seq<Byte>, b: seq<Byte>)
    requires At(data, o, a + b)
    ensures At(data, o, a) && At(data, o + |a|, b)
  {
    assert data[o..o + |a|] == (a + b)[..|a|];
    assert data[o + |a|..o + |a| + |b|] == (a + b)[|a|..];
  }

  lemma AtFill(data: seq<Byte>, o: nat, b: seq<Byte>)
    requires At(data, o, b)
    ensures Fill(data, o, |b|) == b
  {
    FillIsZeroPaddedSlice(data, o, |b|);
  }

  /** Entry j of an encoded table stands at offset 12 + 16j. */
  lemma {:induction false} EntryAt(data: seq<Byte>, es: seq<Entry>, j: nat)
    requires At(data, TableOffset, EncodeEntries(es)) && j < |es|
    ensures At(data, EntryOffset(j), EncodeEntry(es[j]))
  {
    var init := es[..|es| - 1];
    AtSplit(data, TableOffset, EncodeEntries(init), EncodeEntry(es[|es| - 1]));
    if j < |es| - 1 {
      EntryAt(data, init, j);
    }
  }

  /** An encoded entry reads back as its cpuid and id. */
  lemma EntryFields(data: seq<Byte>, o: nat, e: Entry)
    requires At(data, o, EncodeEntry(e))
    ensures ReadU32(data, o) == e.cpuid
    ensures ReadU16(data, o + 12) == e.equivId
  {
    var a := ToLE(e.cpuid, 4);
    var b := ToLE(e.equivId, 2);
    AtSplit(data, o, a + Zeros(8) + b, Zeros(2));
    AtSplit(data, o, a + Zeros(8), b);
    AtSplit(data, o, a, Zeros(8));
    ReadU32OfEncoded(data, o, e.cpuid);
    ReadU16OfEncoded(data, o + 12, e.equivId);
  }

  /** The table built from the first k encoded entries is the one they describe. */
  lemma {:induction false} TableOfEncoded(data: seq<Byte>, es: seq<Entry>, k: nat)
    requires At(data, TableOffset, EncodeEntries(es)) && k <= |es|
    ensures TableOf(data, k) == TableFromEntries(es[..k])
  {
    if k > 0 {
      TableOfEncoded(data, es, k - 1);
      var e := es[k - 1];
      assert EntryCpuid(data, k - 1) == e.cpuid && EntryId(data, k - 1) == e.equivId by {
        EntryAt(data, es, k - 1);
        EntryFields(data, EntryOffset(k - 1), e);
      }
      assert es[..k][..k - 1] == es[..k - 1];
      assert es[..k][k - 1] == e;
    } else {
      assert es[..0] == [];
    }
  }

  /** An encoded record reads back as its fields, and its payload as the payload. */
  lemma RecordFields(data: seq<Byte>, c: nat, r: Record)
    requires Fits(r) && At(data, c, EncodeRecord(r))
    ensures c < |data|
    ensures Tag(data, c) == r.tag
    ensures PatchLength(data, c) == |Payload(r)|
    ensures Level(data, c) == r.level
    ensures RecordId(data, c) == r.equivId
    ensures NextCursor(data, c) == c + |EncodeRecord(r)|
    ensures Fill(data, c + 8, |Payload(r)|) == Payload(r)
  {
    var t := ToLE(r.tag, 4);
    var l := ToLE(|Payload(r)|, 4);
    AtSplit(data, c, t + l, Payload(r));
    AtSplit(data, c, t, l);
    ReadU32OfEncoded(data, c, r.tag);
    ReadU32OfEncoded(data, c + 4, |Payload(r)|);
    AtFill(data, c + 8, Payload(r));
    var p := c + 8;
    var lv := ToLE(r.level, 4);
    var id := ToLE(r.equivId, 2);
    AtSplit(data, p, Zeros(4) + lv + Zeros(16) + id, r.rest);
    AtSplit(data, p, Zeros(4) + lv + Zeros(16), id);
    AtSplit(data, p, Zeros(4) + lv, Zeros(16));
    AtSplit(data, p, Zeros(4), lv);
    ReadU32OfEncoded(data, c + 12, r.level);
    ReadU16OfEncoded(data, c + 32, r.equivId);
  }

  /** The decoder's events for an encoded record are the expected ones. */
  lemma RecordEvents(data: seq<Byte>, table: Table, c: nat, r: Record, extract: bool)
    requires Fits(r) && At(data, c, EncodeRecord(r))
    ensures EventsAt(data, table, c, extract) == ExpectedAt(table, r, extract)
  {
    RecordFields(data, c, r);
    if r.tag == PatchTypeTag && r.equivId in table {
      assert PatchLine(data, table, c) == ExpectedAt(table, r, false)[0];
      assert ExtractPatch(data, c + 8, PatchLength(data, c), Level(data, c))
          == ExtractedPatch(PatchFileName(r.level), Payload(r));
    }
  }

  /** Scanning encoded records that run to the end of the container yields the expected events. */
  lemma {:induction false} ScanOfEncoded(data: seq<Byte>, table: Table, c: nat, rs: seq<Record>, extract: bool)
    requires AllFit(rs) && At(data, c, EncodeRecords(rs)) && c + |EncodeRecords(rs)| == |data|
    ensures ScanFrom(data, table, c, extract) == Expected(table, rs, extract)
    decreases rs
  {
    if rs != [] {
      var r := rs[0];
      var rest := rs[1..];
      var next := c + |EncodeRecord(r)|;
      assert AllFit(rest) by {
        forall i | 0 <= i < |rest| ensures Fits(rest[i]) { assert rest[i] == rs[i + 1]; }
      }
      assert EncodeRecords(rs) == EncodeRecord(r) + EncodeRecords(rest);
      assert At(data, c, EncodeRecord(r)) && At(data, next, EncodeRecords(rest)) by {
        AtSplit(data, c, EncodeRecord(r), EncodeRecords(rest));
      }
      assert c < |data| && Tag(data, c) == r.tag && NextCursor(data, c) == next by {
        RecordFields(data, c, r);
      }
      assert EventsAt(data, table, c, extract) == ExpectedAt(table, r, extract) by {
        RecordEvents(data, table, c, r, extract);
      }
      if r.tag == PatchTypeTag {
        assert next + |EncodeRecords(rest)| == |data|;
        ScanOfEncoded(data, table, next, rest, extract);
      }
    }
  }

  /** The header of an encoded container: its magic, its table length and where table and records stand. */
  lemma HeaderOfEncoded(es: seq<Entry>, rs: seq<Record>)
    requires |es| <= 15 && AllFit(rs)
    ensures var data := Encode(es, rs);
      && Fill(data, 0, 4) == Magic
      && ByteAt(data, TableLenOffset) == 16 * |es|
      && At(data, TableOffset, EncodeEntries(es))
      && At(data, TableOffset + 16 * |es|, EncodeRecords(rs))
      && |data| == TableOffset + 16 * |es| + |EncodeRecords(rs)|
  {
    var data := Encode(es, rs);
    var tableLen: Byte := 16 * |es|;
    var h := Header(tableLen);
    var t := EncodeEntries(es);
    AtSplit(data, 0, h + t, EncodeRecords(rs));
    AtSplit(data, 0, h, t);
    AtSplit(data, 0, Magic + Zeros(4) + [tableLen], Zeros(3));
    AtSplit(data, 0, Magic + Zeros(4), [tableLen]);
    AtSplit(data, 0, Magic, Zeros(4));
    AtFill(data, 0, Magic);
    assert data[8] == h[8];
  }

  /** The table parsed from an encoded container is the one its entries describe. */
  lemma TableOfEncodedContainer(es: seq<Entry>, rs: seq<Record>)
    requires |es| <= 15 && AllFit(rs)
    ensures EquivTableOf(Encode(es, rs), 16 * |es|) == TableFromEntries(es)
  {
    HeaderOfEncoded(es, rs);
    assert EntryCount(16 * |es|) == |es|;
    TableOfEncoded(Encode(es, rs), es, |es|);
    assert es[..|es|] == es;
  }

  /**
   * Round trip: decoding an encoded container gives, for each record in order,
   * its report line (and, when extracting, exactly its payload under the
   * level's file name) if its id is in the table, a missing-id warning if not,
   * and stops at the first record whose tag is not 1.
   */
  lemma DecodeOfEncode(es: seq<Entry>, rs: seq<Record>, extract: bool)
    requires |es| <= 15 && AllFit(rs)
    ensures Decode(Encode(es, rs), extract) == Ok(Expected(TableFromEntries(es), rs, extract))
  {
    HeaderOfEncoded(es, rs);
    TableOfEncodedContainer(es, rs);
    DecodeOfLayout(Encode(es, rs), es, rs, extract);
  }

  /** Decoding a container laid out as header, encoded table and encoded records. */
  lemma DecodeOfLayout(data: seq<Byte>, es: seq<Entry>, rs: seq<Record>, extract: bool)
    requires |es| <= 15 && AllFit(rs)
    requires Fill(data, 0, 4) == Magic && ByteAt(data, TableLenOffset) == 16 * |es|
    requires EquivTableOf(data, 16 * |es|) == TableFromEntries(es)
    requires At(data, TableOffset + 16 * |es|, EncodeRecords(rs))
    requires |data| == TableOffset + 16 * |es| + |EncodeRecords(rs)|
    ensures Decode(data, extract) == Ok(Expected(TableFromEntries(es), rs, extract))
  {
    ScanOfEncoded(data, TableFromEntries(es), TableOffset + 16 * |es|, rs, extract);
  }

  /**
   * A record whose id is not in the table does not stop the scan: with one
   * entry, a first record with another id and a second with the entry's id,
   * exactly one patch is reported, the second.
   */
  lemma UnresolvedRecordSkipped(cpuid: U32, id: U16, otherId: U16, r1: Record, r2: Record, extract: bool)
    requires id != 0 && otherId != id && Fits(r1) && Fits(r2)
    requires r1.tag == 1 && r1.equivId == otherId && r2.tag == 1 && r2.equivId == id
    ensures var s := Fms(AsBits(cpuid));
      PatchLines(Decode(Encode([Entry(cpuid, id)], [r1, r2]), extract).events)
      == [PatchFound(s.family, s.model, s.stepping, r2.level, |Payload(r2)|)]
  {
    var rs := [r1, r2];
    DecodeOfEncode([Entry(cpuid, id)], rs, extract);
    var table := TableFromEntries([Entry(cpuid, id)]);
    assert [Entry(cpuid, id)][..0] == [];
    assert table == map[id := cpuid];
    assert rs[1..] == [r2] && rs[1..][1..] == [];
    var s := Fms(AsBits(cpuid));
    var line := PatchFound(s.family, s.model, s.stepping, r2.level, |Payload(r2)|);
    var ext := if extract then [PatchExtracted(ExtractedPatch(PatchFileName(r2.level), Payload(r2)))] else [];
    assert Expected(table, [r2], extract) == [line] + ext + [];
    assert Expected(table, rs, extract) == [MissingEquivId(otherId)] + ([line] + ext + []);
    PatchLinesAppend([MissingEquivId(otherId)], [line] + ext + []);
    PatchLinesAppend([line], ext + []);
    assert PatchLines(ext + []) == [];
  }

  /**
   * A type tag other than 1 ends the scan without error: after one resolved
   * record, a record tagged 2 yields only the invalid-type event, and exactly
   * one patch is reported.
   */
  lemma BadTagEndsScan(cpuid: U32, id: U16, r1: Record, r2: Record, r3: Record, extract: bool)
    requires id != 0 && Fits(r1) && Fits(r2) && Fits(r3)
    requires r1.tag == 1 && r1.equivId == id && r2.tag == 2
    ensures var events := Decode(Encode([Entry(cpuid, id)], [r1, r2, r3]), extract).events;
      var s := Fms(AsBits(cpuid));
      && events[|events| - 1] == InvalidPatchType(2)
      && PatchLines(events) == [PatchFound(s.family, s.model, s.stepping, r1.level, |Payload(r1)|)]
  {
    var rs := [r1, r2, r3];
    DecodeOfEncode([Entry(cpuid, id)], rs, extract);
    var table := TableFromEntries([Entry(cpuid, id)]);
    assert [Entry(cpuid, id)][..0] == [];
    assert table == map[id := cpuid];
    assert rs[1..] == [r2, r3];
    var s := Fms(AsBits(cpuid));
    var line := PatchFound(s.family, s.model, s.stepping, r1.level, |Payload(r1)|);
    var ext := if extract then [PatchExtracted(ExtractedPatch(PatchFileName(r1.level), Payload(r1)))] else [];
    assert Expected(table, [r2, r3], extract) == [InvalidPatchType(2)];
    assert Expected(table, rs, extract) == [line] + ext + [InvalidPatchType(2)];
    PatchLinesAppend([line] + ext, [InvalidPatchType(2)]);
    PatchLinesAppend([line], ext);
    assert PatchLines(ext) == [];
  }
}
