/**
  The ELF header-table scans (pipeline/analysis/static.py, _elf_linkage and _elf_stripped): every
  offset and count comes from the sample, and every read is checked against the buffer.
 */
module ElfScan {
  import opened Wrappers
  import opened Bytes

  const PT_INTERP: nat := 3
  const SHT_SYMTAB: nat := 2
  const MAX_ENTRIES: nat := 4096

  /** An unsigned field of `n` bytes, little-endian or big-endian. */
  function Field(data: bytes, offset: nat, n: nat, little: bool): nat
    requires offset + n <= |data|
    decreases n
  {
    if n == 0 then 0
    else if little then data[offset] + 256 * Field(data, offset + 1, n - 1, little)
    else data[offset + n - 1] + 256 * Field(data, offset, n - 1, little)
  }

  /** Where a header table starts, the size of its entries, and how many there are. */
  datatype HeaderTable = HeaderTable(offset: nat, entrySize: nat, count: nat)

  /** Table fields at `offsetAt` (8 or 4 bytes wide) and `sizesAt`; None when the buffer is too short. */
  function ReadTable(data: bytes, offsetAt: nat, width: nat, sizesAt: nat, little: bool): Option<HeaderTable> {
    if offsetAt + width > |data| || sizesAt + 4 > |data| then None
    else Some(HeaderTable(Field(data, offsetAt, width, little), Field(data, sizesAt, 2, little),
                          Field(data, sizesAt + 2, 2, little)))
  }

  function ProgramHeaders(data: bytes, little: bool, is64: bool): Option<HeaderTable> {
    if is64 then ReadTable(data, 32, 8, 54, little) else ReadTable(data, 28, 4, 42, little)
  }

  function SectionHeaders(data: bytes, little: bool, is64: bool): Option<HeaderTable> {
    if is64 then ReadTable(data, 40, 8, 58, little) else ReadTable(data, 32, 4, 46, little)
  }

  /** A table worth scanning; entries must at least hold the field that is read. */
  predicate Plausible(t: HeaderTable, need: nat) {
    t.offset != 0 && t.count != 0 && t.entrySize >= need && t.count <= MAX_ENTRIES
  }

  function EntryAt(t: HeaderTable, i: nat): nat { t.offset + i * t.entrySize }

  predicate InBuffer(data: bytes, t: HeaderTable, i: nat, need: nat) { EntryAt(t, i) + need <= |data| }

  /** The four-byte type field that ends the first `need` bytes of entry `i`. */
  function TypeOf(data: bytes, t: HeaderTable, i: nat, need: nat, little: bool): nat
    requires need >= 4 && InBuffer(data, t, i, need)
  {
    Field(data, EntryAt(t, i) + need - 4, 4, little)
  }

  ghost predicate Finds(data: bytes, t: HeaderTable, i: nat, need: nat, little: bool, wanted: nat)
    requires need >= 4
  {
    i < t.count && InBuffer(data, t, i, need) && TypeOf(data, t, i, need, little) == wanted
  }

  /** Entries lie one after the other, so the last one bounds them all. */
  lemma EarlierInBuffer(data: bytes, t: HeaderTable, i: nat, j: nat, need: nat)
    requires i <= j && InBuffer(data, t, j, need)
    ensures InBuffer(data, t, i, need)
  {
    assert i * t.entrySize <= j * t.entrySize;
  }

  datatype Scan = Found | Absent | Truncated

  /** The loop of both functions: stop at the wanted type, give up at the end of the buffer. The answer
      does not depend on the order of the scan: a wanted entry inside the buffer is always found. */
  method ScanTable(data: bytes, t: HeaderTable, need: nat, little: bool, wanted: nat) returns (r: Scan)
    requires need >= 4 && t.count > 0
    ensures r == Found <==> exists i: nat :: Finds(data, t, i, need, little, wanted)
    ensures r == Absent
       <==> InBuffer(data, t, t.count - 1, need) && forall i: nat :: !Finds(data, t, i, need, little, wanted)
    ensures r == Truncated
       <==> !InBuffer(data, t, t.count - 1, need) && forall i: nat :: !Finds(data, t, i, need, little, wanted)
  {
    hide Field, EntryAt;
    for i := 0 to t.count
      invariant i > 0 ==> InBuffer(data, t, i - 1, need)
      invariant forall j: nat :: j < i ==> !Finds(data, t, j, need, little, wanted)
    {
      if !InBuffer(data, t, i, need) {
        forall j: nat | i <= j ensures !InBuffer(data, t, j, need) {
          if InBuffer(data, t, j, need) {
            EarlierInBuffer(data, t, i, j, need);
          }
        }
        return Truncated;
      }
      if TypeOf(data, t, i, need, little) == wanted {
        assert Finds(data, t, i, need, little, wanted);
        return Found;
      }
    }
    return Absent;
  }

  /** `_elf_linkage`: dynamic exactly when some program header inside the buffer is PT_INTERP, static
      exactly when the whole table is inside the buffer and none is, and no answer otherwise. */
  method Linkage(data: bytes, little: bool, is64: bool) returns (r: Option<bool>)
    ensures var t := ProgramHeaders(data, little, is64);
      var usable := t.Some? && Plausible(t.value, 4);
      && (r == Some(true) <==> usable && exists i: nat :: Finds(data, t.value, i, 4, little, PT_INTERP))
      && (r == Some(false) <==> usable && InBuffer(data, t.value, t.value.count - 1, 4)
                                && forall i: nat :: !Finds(data, t.value, i, 4, little, PT_INTERP))
  {
    hide ReadTable, Field, EntryAt, TypeOf;
    var t := ProgramHeaders(data, little, is64);
    if t == None || !Plausible(t.value, 4) {
      return None;
    }
    var scan := ScanTable(data, t.value, 4, little, PT_INTERP);
    r := match scan case Found => Some(true) case Absent => Some(false) case Truncated => None;
  }

  /** `_elf_stripped`: not stripped exactly when some section header inside the buffer is a symbol
      table, stripped exactly when the whole table is inside and none is. */
  method Stripped(data: bytes, little: bool, is64: bool) returns (r: Option<bool>)
    ensures var t := SectionHeaders(data, little, is64);
      var usable := t.Some? && Plausible(t.value, 8);
      && (r == Some(false) <==> usable && exists i: nat :: Finds(data, t.value, i, 8, little, SHT_SYMTAB))
      && (r == Some(true) <==> usable && InBuffer(data, t.value, t.value.count - 1, 8)
                               && forall i: nat :: !Finds(data, t.value, i, 8, little, SHT_SYMTAB))
  {
    hide ReadTable, Field, EntryAt, TypeOf;
    var t := SectionHeaders(data, little, is64);
    if t == None || !Plausible(t.value, 8) {
      return None;
    }
    var scan := ScanTable(data, t.value, 8, little, SHT_SYMTAB);
    r := match scan case Found => Some(false) case Absent => Some(true) case Truncated => None;
  }
}
