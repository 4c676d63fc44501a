/**
 * The container decoder in `main` (src/main.rs:110-178): the magic check, the
 * table length, the equivalence table and the scan over patch records.
 *
 * The scan is a state machine over one cursor. At each cursor it reads the
 * record's type tag (cursor), payload length (cursor+4), patch level
 * (cursor+12) and equivalence id (cursor+32). A tag other than 1 ends the scan
 * without error. An id missing from the table is reported and the record
 * skipped. Otherwise the record's family, model, stepping, level and length are
 * reported and, when requested, its payload extracted. Every record that does
 * not end the scan moves the cursor on by `length + 8`.
 *
 * What the program prints becomes a sequence of events; which stream a line
 * goes to and its exact text are not modelled.
 */
module Scanner {
  import opened Bytes
  import opened Cpuid
  import opened EquivTable
  import opened Extract

  /** The only record type the scan accepts. */
  const PatchTypeTag: nat := 1

  /** "DMA\0", the container's first four bytes. */
  const Magic: seq<Byte> := [0x44, 0x4D, 0x41, 0x00]

  /** One line of output (or one written file), in order. */
  datatype Event =
    | PatchFound(family: bv32, model: bv32, stepping: bv32, level: U32, length: U32)
    | PatchExtracted(patch: ExtractedPatch)
    | MissingEquivId(equivId: U16)
    | InvalidPatchType(tag: U32)

  datatype Error = MissingMagicNumber

  datatype Outcome = Ok(events: seq<Event>) | Err(error: Error)

  /** The fields of the record at cursor c. */
  function Tag(data: seq<Byte>, c: nat): U32 { ReadU32(data, c) }
  function PatchLength(data: seq<Byte>, c: nat): U32 { ReadU32(data, c + 4) }
  function Level(data: seq<Byte>, c: nat): U32 { ReadU32(data, c + 12) }
  function RecordId(data: seq<Byte>, c: nat): U16 { ReadU16(data, c + 32) }

  /** Where the record after the one at c starts. */
  function NextCursor(data: seq<Byte>, c: nat): (n: nat)
    ensures n >= c + 8
  {
    c + PatchLength(data, c) + 8
  }

  /** A 32-bit value as the machine word `fms` takes. */
  function AsBits(x: U32): bv32
  {
    x as bv32
  }

  /** The report line for a resolved record. */
  function PatchLine(data: seq<Byte>, table: Table, c: nat): Event
    requires RecordId(data, c) in table
  {
    var s := Fms(AsBits(table[RecordId(data, c)]));
    PatchFound(s.family, s.model, s.stepping, Level(data, c), PatchLength(data, c))
  }

  /** What the record at c contributes, when the scan reaches it. */
  function EventsAt(data: seq<Byte>, table: Table, c: nat, extract: bool): seq<Event>
  {
    if Tag(data, c) != PatchTypeTag then [InvalidPatchType(Tag(data, c))]
    else if RecordId(data, c) !in table then [MissingEquivId(RecordId(data, c))]
    else
      [PatchLine(data, table, c)]
      + if extract then [PatchExtracted(ExtractPatch(data, c + 8, PatchLength(data, c), Level(data, c)))]
        else []
  }

  /** All events of the scan from cursor c on. */
  function ScanFrom(data: seq<Byte>, table: Table, c: nat, extract: bool): seq<Event>
    decreases |data| - c
  {
    if |data| <= c then []
    else if Tag(data, c) != PatchTypeTag then EventsAt(data, table, c, extract)
    else EventsAt(data, table, c, extract) + ScanFrom(data, table, NextCursor(data, c), extract)
  }

  /**
   * One pass of the record loop's body (src/main.rs:139-175): the events the
   * record at the cursor produces, whether it ends the scan, and the next cursor.
   */
  method ScanRecord(data: seq<Byte>, table: Table, cursor: nat, extract: bool)
    returns (produced: seq<Event>, stop: bool, next: nat)
    ensures produced == EventsAt(data, table, cursor, extract)
    ensures stop <==> Tag(data, cursor) != PatchTypeTag
    ensures !stop ==> next == NextCursor(data, cursor) && next >= cursor + 8
  {
    var patchStart := cursor + 8;
    var patchType := ReadU32(data, cursor);
    if patchType != PatchTypeTag {
      return [InvalidPatchType(patchType)], true, cursor;
    }
    var patchLength := ReadU32(data, cursor + 4);
    var level := ReadU32(data, cursor + 12);
    var equivId := ReadU16(data, cursor + 32);
    next := cursor + patchLength + 8;
    stop := false;
    if equivId !in table {
      produced := [MissingEquivId(equivId)];
      return;
    }
    var s := Fms(AsBits(table[equivId]));
    produced := [PatchFound(s.family, s.model, s.stepping, level, patchLength)];
    if extract {
      produced := produced + [PatchExtracted(ExtractPatch(data, patchStart, patchLength, level))];
    }
  }

  /** The record loop of `main` (src/main.rs:135-176). */
  method ScanPatches(data: seq<Byte>, table: Table, start: nat, extract: bool) returns (events: seq<Event>)
    ensures events == ScanFrom(data, table, start, extract)
  {
    events := [];
    var cursor := start;
    var endOfFile := |data|;
    while cursor < endOfFile
      invariant events + ScanFrom(data, table, cursor, extract) == ScanFrom(data, table, start, extract)
      decreases endOfFile - cursor
    {
      var produced, stop, next := ScanRecord(data, table, cursor, extract);
      events := events + produced;
      if stop {
        break;
      }
      cursor := next;
    }
  }

  /** The whole decoder: magic check, table length, table, scan. */
  function Decode(data: seq<Byte>, extract: bool): Outcome
  {
    if Fill(data, 0, 4) != Magic then Err(MissingMagicNumber)
    else
      var tableLen := ByteAt(data, TableLenOffset);
      Ok(ScanFrom(data, EquivTableOf(data, tableLen), TableOffset + tableLen, extract))
  }

  /** `main` after argument parsing (src/main.rs:110-178). */
  method Run(data: seq<Byte>, extract: bool) returns (r: Outcome)
    ensures r == Decode(data, extract)
    ensures r.Err? <==> Fill(data, 0, 4) != Magic
  {
    var magic := Fill(data, 0, 4);
    if magic != Magic {
      return Err(MissingMagicNumber);
    }
    var tableLen := Fill(data, TableLenOffset, 1)[0];
    var table := ParseEquivTable(data, tableLen);
    var events := ScanPatches(data, table, TableOffset + tableLen, extract);
    return Ok(events);
  }

  /** A three-byte file "DMA" passes the magic check: its missing fourth byte reads as 0. */
  lemma ThreeByteContainerAccepted(extract: bool)
    ensures Decode([0x44, 0x4D, 0x41], extract) == Ok([])
  {
    var data: seq<Byte> := [0x44, 0x4D, 0x41];
    assert Fill(data, 0, 4) == Magic;
  }

  // ---------------------------------------------------------------------------
  // The cursors the scan visits

  /** The cursors at which the scan reads a type tag, starting from c. */
  function Visited(data: seq<Byte>, c: nat): seq<nat>
    decreases |data| - c
  {
    if |data| <= c then []
    else if Tag(data, c) != PatchTypeTag then [c]
    else [c] + Visited(data, NextCursor(data, c))
  }

  /**
   * The visited cursors lie in [c, end of container), each one `length + 8`
   * (at least 8) past the one before, which carries tag 1. Only the last one
   * may carry another tag, and the scan stops after the last one because
   * either its tag is not 1 or the next cursor is at or past the end.
   */
  lemma {:induction false} VisitedShape(data: seq<Byte>, c: nat)
    ensures var v := Visited(data, c);
      && (c < |data| <==> |v| > 0)
      && (|v| > 0 ==> v[0] == c)
      && (forall i :: 0 <= i < |v| ==> c <= v[i] < |data|)
      && (forall i :: 0 <= i < |v| - 1 ==>
            Tag(data, v[i]) == PatchTypeTag && v[i + 1] == NextCursor(data, v[i]))
      && (|v| > 0 ==> Tag(data, v[|v| - 1]) != PatchTypeTag
                      || |data| <= NextCursor(data, v[|v| - 1]))
    decreases |data| - c
  {
    if c < |data| && Tag(data, c) == PatchTypeTag {
      var n := NextCursor(data, c);
      VisitedShape(data, n);
      var w := Visited(data, n);
      var v := Visited(data, c);
      assert v == [c] + w;
      forall i | 0 <= i < |v| - 1
        ensures Tag(data, v[i]) == PatchTypeTag && v[i + 1] == NextCursor(data, v[i])
      {
        if i > 0 {
          assert v[i] == w[i - 1] && v[i + 1] == w[i];
        }
      }
    }
  }

  /** The cursor strictly increases: k steps on, it has moved at least 8k bytes. */
  lemma {:induction false} VisitedIncreasing(data: seq<Byte>, c: nat, i: nat, j: nat)
    requires i <= j < |Visited(data, c)|
    ensures Visited(data, c)[i] + 8 * (j - i) <= Visited(data, c)[j]
    decreases j - i
  {
    if i < j {
      VisitedShape(data, c);
      VisitedIncreasing(data, c, i + 1, j);
    }
  }

  /** Concatenation of the events of a list of cursors. */
  function EventsOver(data: seq<Byte>, table: Table, cs: seq<nat>, extract: bool): seq<Event>
  {
    if cs == [] then [] else EventsAt(data, table, cs[0], extract) + EventsOver(data, table, cs[1..], extract)
  }

  /** The scan's output is the events of the visited records, in file order. */
  lemma {:induction false} ScanIsEventsOfVisited(data: seq<Byte>, table: Table, c: nat, extract: bool)
    ensures ScanFrom(data, table, c, extract) == EventsOver(data, table, Visited(data, c), extract)
    decreases |data| - c
  {
    if c < |data| {
      var v := Visited(data, c);
      if Tag(data, c) == PatchTypeTag {
        ScanIsEventsOfVisited(data, table, NextCursor(data, c), extract);
        assert v[1..] == Visited(data, NextCursor(data, c));
      } else {
        assert v[1..] == [];
      }
    }
  }

  // ---------------------------------------------------------------------------
  // Which records are reported

  /** The report lines among the events. */
  function PatchLines(events: seq<Event>): seq<Event>
  {
    if events == [] then []
    else (if events[0].PatchFound? then [events[0]] else []) + PatchLines(events[1..])
  }

  lemma {:induction false} PatchLinesAppend(a: seq<Event>, b: seq<Event>)
    ensures PatchLines(a + b) == PatchLines(a) + PatchLines(b)
  {
    if a != [] {
      PatchLinesAppend(a[1..], b);
      assert (a + b)[1..] == a[1..] + b;
    } else {
      assert a + b == b;
    }
  }

  /** A cursor holds a type-1 record whose id resolves in the table. */
  predicate Resolves(data: seq<Byte>, table: Table, c: nat)
  {
    Tag(data, c) == PatchTypeTag && RecordId(data, c) in table
  }

  /** The cursors among cs that hold resolved records, in order. */
  function ResolvedAmong(data: seq<Byte>, table: Table, cs: seq<nat>): seq<nat>
  {
    if cs == [] then []
    else (if Resolves(data, table, cs[0]) then [cs[0]] else []) + ResolvedAmong(data, table, cs[1..])
  }

  /** The report lines for the records at the given cursors. */
  function PatchLinesFor(data: seq<Byte>, table: Table, cs: seq<nat>): seq<Event>
    requires forall i :: 0 <= i < |cs| ==> Resolves(data, table, cs[i])
  {
    seq(|cs|, i requires 0 <= i < |cs| => assert Resolves(data, table, cs[i]); PatchLine(data, table, cs[i]))
  }

  /** The report lines an event list's single record contributes. */
  lemma PatchLinesAt(data: seq<Byte>, table: Table, c: nat, extract: bool)
    ensures PatchLines(EventsAt(data, table, c, extract))
         == if Resolves(data, table, c) then [PatchLine(data, table, c)] else []
  {
    var e := EventsAt(data, table, c, extract);
    if Resolves(data, table, c) {
      var ext := if extract then [PatchExtracted(ExtractPatch(data, c + 8, PatchLength(data, c), Level(data, c)))] else [];
      assert e == [PatchLine(data, table, c)] + ext;
      PatchLinesAppend([PatchLine(data, table, c)], ext);
      assert PatchLines(ext) == [];
    }
  }

  lemma PatchLinesForAppend(data: seq<Byte>, table: Table, a: seq<nat>, b: seq<nat>)
    requires forall i :: 0 <= i < |a| ==> Resolves(data, table, a[i])
    requires forall i :: 0 <= i < |b| ==> Resolves(data, table, b[i])
    ensures forall i :: 0 <= i < |a + b| ==> Resolves(data, table, (a + b)[i])
    ensures PatchLinesFor(data, table, a + b) == PatchLinesFor(data, table, a) + PatchLinesFor(data, table, b)
  {
    var ab := a + b;
    forall i | 0 <= i < |ab|
      ensures Resolves(data, table, ab[i])
    {
      if i >= |a| {
        assert ab[i] == b[i - |a|];
      }
    }
    var l := PatchLinesFor(data, table, ab);
    var r := PatchLinesFor(data, table, a) + PatchLinesFor(data, table, b);
    forall i | 0 <= i < |ab|
      ensures l[i] == r[i]
    {
      if i < |a| {
        assert l[i] == PatchLine(data, table, a[i]);
      } else {
        assert ab[i] == b[i - |a|];
        assert l[i] == PatchLine(data, table, b[i - |a|]);
      }
    }
  }

  lemma {:induction false} PatchLinesOfEventsOver(data: seq<Byte>, table: Table, cs: seq<nat>, extract: bool)
    ensures var rs := ResolvedAmong(data, table, cs);
      && (forall i :: 0 <= i < |rs| ==> Resolves(data, table, rs[i]))
      && PatchLines(EventsOver(data, table, cs, extract)) == PatchLinesFor(data, table, rs)
  {
    if cs != [] {
      PatchLinesOfEventsOver(data, table, cs[1..], extract);
      PatchLinesAppend(EventsAt(data, table, cs[0], extract), EventsOver(data, table, cs[1..], extract));
      PatchLinesAt(data, table, cs[0], extract);
      var head := if Resolves(data, table, cs[0]) then [cs[0]] else [];
      var rest := ResolvedAmong(data, table, cs[1..]);
      assert ResolvedAmong(data, table, cs) == head + rest;
      PatchLinesForAppend(data, table, head, rest);
    }
  }

  /**
   * The report lines are exactly those of the visited records with tag 1 whose
   * id resolves, in file order; a visited record with another tag is the last
   * one visited, so nothing after it is reported.
   */
  lemma ReportedAreResolvedVisited(data: seq<Byte>, table: Table, c: nat, extract: bool)
    ensures var rs := ResolvedAmong(data, table, Visited(data, c));
      && (forall i :: 0 <= i < |rs| ==> Resolves(data, table, rs[i]))
      && PatchLines(ScanFrom(data, table, c, extract)) == PatchLinesFor(data, table, rs)
  {
    ScanIsEventsOfVisited(data, table, c, extract);
    PatchLinesOfEventsOver(data, table, Visited(data, c), extract);
  }

  /**
   * A type-1 record with id 0 never resolves, since 0 is never a key of the
   * table: it is reported as missing and the scan goes on with the next record.
   */
  lemma ZeroIdRecordSkipped(data: seq<Byte>, tableLen: nat, c: nat, extract: bool)
    requires c < |data| && Tag(data, c) == PatchTypeTag && RecordId(data, c) == 0
    ensures ScanFrom(data, EquivTableOf(data, tableLen), c, extract)
         == [MissingEquivId(0)] + ScanFrom(data, EquivTableOf(data, tableLen), NextCursor(data, c), extract)
  {
    ZeroNotInTable(data, EntryCount(tableLen));
  }

  /** With an empty table no record resolves, so no patch is reported. */
  lemma {:induction false} EmptyTableReportsNothing(data: seq<Byte>, c: nat, extract: bool)
    ensures PatchLines(ScanFrom(data, map[], c, extract)) == []
    decreases |data| - c
  {
    if c < |data| {
      var e := EventsAt(data, map[], c, extract);
      assert PatchLines(e) == [];
      if Tag(data, c) == PatchTypeTag {
        EmptyTableReportsNothing(data, NextCursor(data, c), extract);
        PatchLinesAppend(e, ScanFrom(data, map[], NextCursor(data, c), extract));
      }
    }
  }

  /**
   * A container whose table length byte is 0 has an empty table, its first
   * record at offset 12, and reports no patch.
   */
  lemma ZeroTableLength(data: seq<Byte>, extract: bool)
    requires Fill(data, 0, 4) == Magic && ByteAt(data, TableLenOffset) == 0
    ensures Decode(data, extract) == Ok(ScanFrom(data, map[], 12, extract))
    ensures PatchLines(Decode(data, extract).events) == []
  {
    EmptyTableReportsNothing(data, 12, extract);
  }
}
