/**
  The ELF file header and its tables as they are laid out in a file, and what the scans of pipeline/analysis/static.py
  (_elf_linkage and _elf_stripped) read from them.
 */
module ElfLaws {
  import opened Wrappers
  import opened Bytes
  import opened ElfScan

  // ------------------------------------------------------------------ numbers

  /** A number as `n` bytes, the least significant one first or last. */
  function Number(value: nat, n: nat, little: bool): (b: bytes)
    ensures |b| == n
  {
    if n == 0 then []
    else if little then [value % 256] + Number(value / 256, n - 1, little)
    else Number(value / 256, n - 1, little) + [value % 256]
  }

  /** What `n` bytes can hold. */
  function Capacity(n: nat): nat {
    if n == 0 then 1 else 256 * Capacity(n - 1)
  }

  /** The field is the number that was written there. */
  lemma {:induction false} FieldIff(data: bytes, offset: nat, n: nat, little: bool, value: nat)
    requires offset + n <= |data| && value < Capacity(n)
    ensures Field(data, offset, n, little) == value <==> data[offset..offset + n] == Number(value, n, little)
    decreases n
  {
    hide Field, Number, Capacity;
    FieldStep(data, offset, n, little, value);
    if n > 0 {
      var v := value / 256;
      if little {
        FieldIff(data, offset + 1, n - 1, little, v);
        LastDigit(value, data[offset], Field(data, offset + 1, n - 1, little));
        SamePair(data[offset], value % 256, data[offset + 1..offset + n], Number(v, n - 1, little));
      } else {
        FieldIff(data, offset, n - 1, little, v);
        LastDigit(value, data[offset + n - 1], Field(data, offset, n - 1, little));
        SamePair(data[offset + n - 1], value % 256, data[offset..offset + n - 1], Number(v, n - 1, little));
      }
    }
  }

  /** One byte of a field, and one digit of a number. */
  lemma FieldStep(data: bytes, offset: nat, n: nat, little: bool, value: nat)
    requires offset + n <= |data| && value < Capacity(n)
    ensures n == 0 ==> Field(data, offset, n, little) == value == 0 && Number(value, n, little) == []
    ensures n > 0 ==> value / 256 < Capacity(n - 1)
    ensures n > 0 && little ==>
      && Field(data, offset, n, little) == data[offset] as int + 256 * Field(data, offset + 1, n - 1, little)
      && Number(value, n, little) == [value % 256] + Number(value / 256, n - 1, little)
      && data[offset..offset + n] == [data[offset]] + data[offset + 1..offset + n]
    ensures n > 0 && !little ==>
      && Field(data, offset, n, little) == data[offset + n - 1] as int + 256 * Field(data, offset, n - 1, little)
      && Number(value, n, little) == Number(value / 256, n - 1, little) + [value % 256]
      && data[offset..offset + n] == data[offset..offset + n - 1] + [data[offset + n - 1]]
  {
  }

  lemma LastDigit(value: nat, digit: byte, upper: nat)
    ensures digit as int + 256 * upper == value <==> digit == value % 256 && upper == value / 256
  {
  }

  lemma SamePair(x: byte, y: byte, a: bytes, b: bytes)
    requires |a| == |b|
    ensures [x] + a == [y] + b <==> x == y && a == b
    ensures a + [x] == b + [y] <==> x == y && a == b
  {
    if [x] + a == [y] + b {
      assert ([x] + a)[0] == ([y] + b)[0] && ([x] + a)[1..] == ([y] + b)[1..];
    }
    if a + [x] == b + [y] {
      assert (a + [x])[|a|] == (b + [y])[|a|] && (a + [x])[..|a|] == (b + [y])[..|a|];
    }
  }

  // -------------------------------------------------------------- the file header

  /** The fields of the file header, in the order of the System V ABI; `ident` and the first four are not read here. */
  datatype Header = Header(
    kind: nat, machine: nat, version: nat, entry: nat, phoff: nat, shoff: nat, flags: nat, ehsize: nat,
    phentsize: nat, phnum: nat, shentsize: nat, shnum: nat, shstrndx: nat)

  /** Everything after the 16 bytes of identification; addresses and offsets take 8 bytes or 4. */
  function Encode(h: Header, little: bool, is64: bool): bytes {
    var width := if is64 then 8 else 4;
    Number(h.kind, 2, little) + Number(h.machine, 2, little) + Number(h.version, 4, little)
    + Number(h.entry, width, little) + Number(h.phoff, width, little) + Number(h.shoff, width, little)
    + Number(h.flags, 4, little) + Number(h.ehsize, 2, little) + Number(h.phentsize, 2, little)
    + Number(h.phnum, 2, little) + Number(h.shentsize, 2, little) + Number(h.shnum, 2, little)
    + Number(h.shstrndx, 2, little)
  }

  predicate Fits(h: Header, is64: bool) {
    && h.phoff < Capacity(if is64 then 8 else 4) && h.shoff < Capacity(if is64 then 8 else 4)
    && h.phentsize < Capacity(2) && h.phnum < Capacity(2) && h.shentsize < Capacity(2) && h.shnum < Capacity(2)
  }

  /** Where the fields stand in a 64-bit header. */
  lemma Layout64(ident: bytes, h: Header, rest: bytes, little: bool)
    requires |ident| == 16
    ensures var data := ident + Encode(h, little, true) + rest;
      && |data| >= 64
      && data[32..32 + 8] == Number(h.phoff, 8, little) && data[40..40 + 8] == Number(h.shoff, 8, little)
      && data[54..54 + 2] == Number(h.phentsize, 2, little) && data[56..56 + 2] == Number(h.phnum, 2, little)
      && data[58..58 + 2] == Number(h.shentsize, 2, little) && data[60..60 + 2] == Number(h.shnum, 2, little)
  {
    hide Number;
  }

  /** Where they stand in a 32-bit header. */
  lemma Layout32(ident: bytes, h: Header, rest: bytes, little: bool)
    requires |ident| == 16
    ensures var data := ident + Encode(h, little, false) + rest;
      && |data| >= 52
      && data[28..28 + 4] == Number(h.phoff, 4, little) && data[32..32 + 4] == Number(h.shoff, 4, little)
      && data[42..42 + 2] == Number(h.phentsize, 2, little) && data[44..44 + 2] == Number(h.phnum, 2, little)
      && data[46..46 + 2] == Number(h.shentsize, 2, little) && data[48..48 + 2] == Number(h.shnum, 2, little)
  {
    hide Number;
  }

  /** From a file that begins with the header, the tables are read as the header gives them. */
  lemma HeaderRoundTrip(ident: bytes, h: Header, rest: bytes, little: bool, is64: bool)
    requires |ident| == 16 && Fits(h, is64)
    ensures var data := ident + Encode(h, little, is64) + rest;
      && ProgramHeaders(data, little, is64) == Some(HeaderTable(h.phoff, h.phentsize, h.phnum))
      && SectionHeaders(data, little, is64) == Some(HeaderTable(h.shoff, h.shentsize, h.shnum))
  {
    hide Number, Field, Capacity, Encode;
    var data := ident + Encode(h, little, is64) + rest;
    if is64 {
      Layout64(ident, h, rest, little);
      FieldIff(data, 32, 8, little, h.phoff);
      FieldIff(data, 40, 8, little, h.shoff);
      FieldIff(data, 54, 2, little, h.phentsize);
      FieldIff(data, 56, 2, little, h.phnum);
      FieldIff(data, 58, 2, little, h.shentsize);
      FieldIff(data, 60, 2, little, h.shnum);
    } else {
      Layout32(ident, h, rest, little);
      FieldIff(data, 28, 4, little, h.phoff);
      FieldIff(data, 32, 4, little, h.shoff);
      FieldIff(data, 42, 2, little, h.phentsize);
      FieldIff(data, 44, 2, little, h.phnum);
      FieldIff(data, 46, 2, little, h.shentsize);
      FieldIff(data, 48, 2, little, h.shnum);
    }
  }

  // ---------------------------------------------------------------- the tables

  /** Entry `i` of a program header table starts with the type of an interpreter segment, 3. */
  predicate IsInterpreter(data: bytes, h: Header, i: nat, little: bool) {
    var at := h.phoff + i * h.phentsize;
    at + 4 <= |data| && data[at..at + 4] == Number(3, 4, little)
  }

  /** Entry `i` of a section header table has the type of a symbol table, 2, in its second four bytes. */
  predicate IsSymbolTable(data: bytes, h: Header, i: nat, little: bool) {
    var at := h.shoff + i * h.shentsize;
    at + 8 <= |data| && data[at + 4..at + 8] == Number(2, 4, little)
  }

  /** A header finds the segment types at the start of the entries, and the section types four bytes further on. */
  lemma EntryTypes(data: bytes, h: Header, i: nat, little: bool)
    ensures Finds(data, HeaderTable(h.phoff, h.phentsize, h.phnum), i, 4, little, PT_INTERP)
       <==> i < h.phnum && IsInterpreter(data, h, i, little)
    ensures Finds(data, HeaderTable(h.shoff, h.shentsize, h.shnum), i, 8, little, SHT_SYMTAB)
       <==> i < h.shnum && IsSymbolTable(data, h, i, little)
  {
    hide Field, Number;
    assert Capacity(0) == 1 && Capacity(1) == 256 && Capacity(2) == 65536;
    assert Capacity(4) > 3;
    var segment, section := h.phoff + i * h.phentsize, h.shoff + i * h.shentsize;
    if segment + 4 <= |data| {
      FieldIff(data, segment, 4, little, 3);
    }
    if section + 8 <= |data| {
      FieldIff(data, section + 4, 4, little, 2);
    }
  }

  /** The table is worth scanning: it is there, its entries are large enough, and there are at most 4096. */
  predicate Usable(offset: nat, entrySize: nat, count: nat, need: nat) {
    0 < offset && need <= entrySize && 1 <= count <= 4096
  }

  /** The verdict on a file that begins with a header: dynamic when some entry inside the file names an interpreter,
      static when all entries are inside and none does. */
  method LinkageOfFile(ident: bytes, h: Header, rest: bytes, little: bool, is64: bool) returns (r: Option<bool>)
    requires |ident| == 16 && Fits(h, is64)
    ensures var data := ident + Encode(h, little, is64) + rest;
      var usable := Usable(h.phoff, h.phentsize, h.phnum, 4);
      && (r == Some(true) <==> usable && exists i: nat :: i < h.phnum && IsInterpreter(data, h, i, little))
      && (r == Some(false) <==> usable && h.phoff + (h.phnum - 1) * h.phentsize + 4 <= |data|
                                && forall i: nat :: i < h.phnum ==> !IsInterpreter(data, h, i, little))
  {
    hide Field, Number, Encode, Finds, IsInterpreter, IsSymbolTable;
    var data := ident + Encode(h, little, is64) + rest;
    HeaderRoundTrip(ident, h, rest, little, is64);
    forall i: nat ensures Finds(data, HeaderTable(h.phoff, h.phentsize, h.phnum), i, 4, little, PT_INTERP)
                     <==> i < h.phnum && IsInterpreter(data, h, i, little)
    {
      EntryTypes(data, h, i, little);
    }
    r := Linkage(data, little, is64);
  }

  /** Likewise: not stripped when some entry inside the file is a symbol table, stripped when all are inside and none
      is. */
  method StrippedOfFile(ident: bytes, h: Header, rest: bytes, little: bool, is64: bool) returns (r: Option<bool>)
    requires |ident| == 16 && Fits(h, is64)
    ensures var data := ident + Encode(h, little, is64) + rest;
      var usable := Usable(h.shoff, h.shentsize, h.shnum, 8);
      && (r == Some(false) <==> usable && exists i: nat :: i < h.shnum && IsSymbolTable(data, h, i, little))
      && (r == Some(true) <==> usable && h.shoff + (h.shnum - 1) * h.shentsize + 8 <= |data|
                               && forall i: nat :: i < h.shnum ==> !IsSymbolTable(data, h, i, little))
  {
    hide Field, Number, Encode, Finds, IsInterpreter, IsSymbolTable;
    var data := ident + Encode(h, little, is64) + rest;
    HeaderRoundTrip(ident, h, rest, little, is64);
    forall i: nat ensures Finds(data, HeaderTable(h.shoff, h.shentsize, h.shnum), i, 8, little, SHT_SYMTAB)
                     <==> i < h.shnum && IsSymbolTable(data, h, i, little)
    {
      EntryTypes(data, h, i, little);
    }
    r := Stripped(data, little, is64);
  }
}
