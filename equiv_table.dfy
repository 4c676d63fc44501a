/**
 * The equivalence table (`parse_equiv_table`, src/main.rs:35-59).
 *
 * The table starts at offset 12 and is `table_len` bytes long, where
 * `table_len` is the single byte at offset 8. It is walked in 16-byte entries:
 * the cpuid is the 32-bit value at the start of an entry and the equivalence id
 * the 16-bit value 12 bytes further on. A zero id marks an unused entry; any
 * other id maps to its entry's cpuid, a later entry replacing an earlier one.
 */
module EquivTable {
  import opened Bytes

  const EntrySize: nat := 16
  const TableLenOffset: nat := 8
  const TableOffset: nat := 12

  /** The table: equivalence id to cpuid. */
  type Table = map<U16, U32>

  /** Start of entry k. */
  function EntryOffset(k: nat): nat
  {
    TableOffset + EntrySize * k
  }

  /** The cpuid of entry k. */
  function EntryCpuid(data: seq<Byte>, k: nat): U32
  {
    ReadU32(data, EntryOffset(k))
  }

  /** The equivalence id of entry k, after the skipped errata mask and compare fields. */
  function EntryId(data: seq<Byte>, k: nat): U16
  {
    ReadU16(data, EntryOffset(k) + 12)
  }

  /** Number of entries the loop visits: ceil(table_len / 16). */
  function EntryCount(tableLen: nat): nat
  {
    (tableLen + EntrySize - 1) / EntrySize
  }

  /** Entry k is visited exactly when its start lies below `12 + table_len`. */
  lemma EntryVisitedIff(tableLen: nat, k: nat)
    ensures k < EntryCount(tableLen) <==> EntryOffset(k) < TableOffset + tableLen
  {
  }

  /** The table built from the first n entries. */
  function TableOf(data: seq<Byte>, n: nat): Table
  {
    if n == 0 then map[]
    else
      var t := TableOf(data, n - 1);
      if EntryId(data, n - 1) != 0 then t[EntryId(data, n - 1) := EntryCpuid(data, n - 1)] else t
  }

  /** The table `parse_equiv_table` returns for a table of `tableLen` bytes. */
  function EquivTableOf(data: seq<Byte>, tableLen: nat): Table
  {
    TableOf(data, EntryCount(tableLen))
  }

  /** `parse_equiv_table`: visits entries at 12, 28, 44, ... below 12 + table_len. */
  method ParseEquivTable(data: seq<Byte>, tableLen: nat) returns (table: Table)
    ensures table == EquivTableOf(data, tableLen)
    ensures tableLen == 0 ==> table == map[]
  {
    table := map[];
    var tableItem := TableOffset;
    var tableStop := TableOffset + tableLen;
    ghost var k: nat := 0;
    while tableItem < tableStop
      invariant tableItem == EntryOffset(k)
      invariant k <= EntryCount(tableLen)
      invariant table == TableOf(data, k)
      decreases tableStop - tableItem
    {
      var cpuid := ReadU32(data, tableItem);
      var equivId := ReadU16(data, tableItem + 12);
      if equivId != 0 {
        table := table[equivId := cpuid];
      }
      tableItem := tableItem + EntrySize;
      k := k + 1;
    }
  }

  /** Zero never becomes a key: it marks an unused entry. */
  lemma {:induction false} ZeroNotInTable(data: seq<Byte>, n: nat)
    ensures 0 !in TableOf(data, n)
  {
    if n > 0 {
      ZeroNotInTable(data, n - 1);
    }
  }

  /** An id is a key exactly when it is non-zero and some visited entry carries it. */
  lemma {:induction false} InTableIff(data: seq<Byte>, n: nat, id: U16)
    ensures id in TableOf(data, n) <==> id != 0 && exists j :: 0 <= j < n && EntryId(data, j) == id
  {
    if n > 0 {
      InTableIff(data, n - 1, id);
      if id in TableOf(data, n) && EntryId(data, n - 1) != id {
        assert id in TableOf(data, n - 1);
      }
      if id != 0 && EntryId(data, n - 1) == id {
        assert id in TableOf(data, n);
      }
    } else {
      assert TableOf(data, 0) == map[];
    }
  }

  /** Last write wins: an id maps to the cpuid of the last visited entry carrying it. */
  lemma {:induction false} LastEntryWins(data: seq<Byte>, n: nat, j: nat)
    requires j < n && EntryId(data, j) != 0
    requires forall j' :: j < j' < n ==> EntryId(data, j') != EntryId(data, j)
    ensures EntryId(data, j) in TableOf(data, n)
    ensures TableOf(data, n)[EntryId(data, j)] == EntryCpuid(data, j)
  {
    if j < n - 1 {
      LastEntryWins(data, n - 1, j);
    }
  }

  /**
   * Every key maps to the cpuid stored 12 bytes before an occurrence of that
   * key in the visited part of the table, that is, at the start of its entry.
   */
  lemma {:induction false} ValueFromItsEntry(data: seq<Byte>, n: nat, id: U16)
    requires id in TableOf(data, n)
    ensures exists j :: 0 <= j < n && EntryId(data, j) == id
              && TableOf(data, n)[id] == ReadU32(data, EntryOffset(j))
  {
    ZeroNotInTable(data, n);
    assert n != 0;
    if EntryId(data, n - 1) == id {
      assert TableOf(data, n) == TableOf(data, n - 1)[id := EntryCpuid(data, n - 1)];
    } else {
      ValueFromItsEntry(data, n - 1, id);
    }
  }
}
