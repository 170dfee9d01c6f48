/**
  ELF images as src/lib/loader/elf.h lays them out (System V ABI, chapter 4 and 5), read into the
  class-neutral views of elf_image_check.c.
 */
module ElfImage {
  import opened Numbers

  type Image = seq<byte>

  function U16(d: Image, o: nat): (v: nat)
    requires o + 2 <= |d|
    ensures v < 0x1_0000
  {
    d[o] + 0x100 * (d[o + 1] as int)
  }

  function U32(d: Image, o: nat): (v: nat)
    requires o + 4 <= |d|
    ensures v < TWO_TO_32
  {
    U16(d, o) + 0x1_0000 * U16(d, o + 2)
  }

  function U64(d: Image, o: nat): (v: nat)
    requires o + 8 <= |d|
    ensures v < TWO_TO_64
  {
    U32(d, o) + TWO_TO_32 * U32(d, o + 4)
  }

  const PT_LOAD: nat := 1
  const SHT_NULL: nat := 0
  const SHT_SYMTAB: nat := 2
  const SHT_STRTAB: nat := 3
  const SHT_NOBITS: nat := 8

  datatype Header = Header(is64: bool, phoff: nat, shoff: nat, phentsize: nat, phnum: nat,
                           shentsize: nat, shnum: nat, shstrndx: nat)
  datatype Program = Program(type_: nat, offset: nat, paddr: nat, filesz: nat, memsz: nat)
  datatype Section = Section(name: nat, type_: nat, offset: nat, size: nat, link: nat, entsize: nat)

  function EhdrSize(is64: bool): nat { if is64 then 64 else 52 }
  function PhdrSize(is64: bool): nat { if is64 then 56 else 32 }
  function ShdrSize(is64: bool): nat { if is64 then 64 else 40 }
  function SymSize(is64: bool): nat { if is64 then 24 else 16 }

  /** The identification bytes: magic number, class, little endian. */
  predicate Identified(d: Image) {
    && 16 <= |d| && d[0] == 0x7F && d[1] == 0x45 && d[2] == 0x4C && d[3] == 0x46
    && d[5] == 1 && (d[4] == 1 || d[4] == 2)
  }

  predicate Is64(d: Image)
    requires 16 <= |d|
  {
    d[4] == 2
  }

  predicate HasHeader(d: Image) {
    Identified(d) && EhdrSize(Is64(d)) <= |d|
  }

  function ReadHeader(d: Image): (h: Header)
    requires HasHeader(d)
    ensures h.phentsize < 0x1_0000 && h.phnum < 0x1_0000 && h.shentsize < 0x1_0000 && h.shnum < 0x1_0000
    ensures h.phoff < TWO_TO_64 && h.shoff < TWO_TO_64
  {
    if Is64(d) then Header(true, U64(d, 32), U64(d, 40), U16(d, 54), U16(d, 56), U16(d, 58), U16(d, 60), U16(d, 62))
    else Header(false, U32(d, 28), U32(d, 32), U16(d, 42), U16(d, 44), U16(d, 46), U16(d, 48), U16(d, 50))
  }

  function ReadProgram(d: Image, is64: bool, o: nat): (p: Program)
    requires o + PhdrSize(is64) <= |d|
  {
    if is64 then Program(U32(d, o), U64(d, o + 8), U64(d, o + 24), U64(d, o + 32), U64(d, o + 40))
    else Program(U32(d, o), U32(d, o + 4), U32(d, o + 12), U32(d, o + 16), U32(d, o + 20))
  }

  function ReadSection(d: Image, is64: bool, o: nat): (s: Section)
    requires o + ShdrSize(is64) <= |d|
    ensures s.offset < TWO_TO_64 && s.size < TWO_TO_64
  {
    if is64 then Section(U32(d, o), U32(d, o + 4), U64(d, o + 24), U64(d, o + 32), U32(d, o + 40), U64(d, o + 56))
    else Section(U32(d, o), U32(d, o + 4), U32(d, o + 16), U32(d, o + 20), U32(d, o + 24), U32(d, o + 36))
  }

  // ---- Well-formedness, in true integers ----

  predicate Inside(d: Image, offset: nat, size: nat) {
    offset + size <= |d|
  }

  /** Entry `i` of a table. */
  function EntryAt(offset: nat, entsize: nat, i: nat): nat {
    offset + i * entsize
  }

  predicate TableInside(d: Image, offset: nat, count: nat, entsize: nat) {
    Inside(d, offset, count * entsize)
  }

  lemma EntryInside(d: Image, offset: nat, count: nat, entsize: nat, i: nat)
    requires TableInside(d, offset, count, entsize) && i < count
    ensures EntryAt(offset, entsize, i) + entsize <= |d|
  {
    assert (i + 1) * entsize <= count * entsize;
  }

  /** The program header table lies inside the file. */
  predicate ProgramTable(d: Image, h: Header) {
    PhdrSize(h.is64) <= h.phentsize && TableInside(d, h.phoff, h.phnum, h.phentsize)
  }

  function ProgramAt(d: Image, h: Header, i: nat): Program
    requires ProgramTable(d, h) && i < h.phnum
  {
    EntryInside(d, h.phoff, h.phnum, h.phentsize, i);
    ReadProgram(d, h.is64, EntryAt(h.phoff, h.phentsize, i))
  }

  predicate ProgramOk(d: Image, p: Program) {
    p.type_ == PT_LOAD ==> Inside(d, p.offset, p.filesz) && p.filesz <= p.memsz
  }

  predicate ProgramsOk(d: Image, h: Header) {
    h.phnum == 0 || (ProgramTable(d, h) && forall i :: 0 <= i < h.phnum ==> ProgramOk(d, ProgramAt(d, h, i)))
  }

  predicate SectionTable(d: Image, h: Header) {
    ShdrSize(h.is64) <= h.shentsize && TableInside(d, h.shoff, h.shnum, h.shentsize)
  }

  function SectionAt(d: Image, h: Header, i: nat): Section
    requires SectionTable(d, h) && i < h.shnum
  {
    EntryInside(d, h.shoff, h.shnum, h.shentsize, i);
    ReadSection(d, h.is64, EntryAt(h.shoff, h.shentsize, i))
  }

  predicate ContentsInside(d: Image, s: Section) {
    s.type_ == SHT_NULL || s.type_ == SHT_NOBITS || Inside(d, s.offset, s.size)
  }

  /** A nonempty string table that ends with NUL. */
  predicate StringTable(d: Image, s: Section) {
    s.type_ == SHT_STRTAB && 0 < s.size && Inside(d, s.offset, s.size) && d[s.offset + s.size - 1] == 0
  }

  /** Symbol `i` of a symbol table. */
  function SymbolOffset(h: Header, s: Section, i: nat): nat {
    EntryAt(s.offset, SymSize(h.is64), i)
  }

  predicate SymbolNamesInside(d: Image, h: Header, s: Section, strings: Section)
    requires Inside(d, s.offset, s.size)
  {
    forall i {:trigger SymbolOffset(h, s, i)} :: 0 <= i < s.size / SymSize(h.is64) ==>
      SymbolOffset(h, s, i) + SymSize(h.is64) <= |d| && U32(d, SymbolOffset(h, s, i)) < strings.size
  }

  predicate SymbolTableOk(d: Image, h: Header, s: Section)
    requires SectionTable(d, h) && Inside(d, s.offset, s.size)
  {
    && (s.entsize == 0 || s.entsize == SymSize(h.is64))
    && s.link < h.shnum && StringTable(d, SectionAt(d, h, s.link))
    && SymbolNamesInside(d, h, s, SectionAt(d, h, s.link))
  }

  /** The rules for section `i` once the name table is known. */
  predicate SectionOk(d: Image, h: Header, names: Section, i: nat)
    requires SectionTable(d, h) && i < h.shnum && ContentsInside(d, SectionAt(d, h, i))
  {
    && SectionAt(d, h, i).name < names.size
    && (SectionAt(d, h, i).type_ == SHT_SYMTAB ==> SymbolTableOk(d, h, SectionAt(d, h, i)))
  }

  predicate SectionsOk(d: Image, h: Header) {
    h.shnum == 0 ||
    (&& SectionTable(d, h)
     && (forall i :: 0 <= i < h.shnum ==> ContentsInside(d, SectionAt(d, h, i)))
     && h.shstrndx < h.shnum && StringTable(d, SectionAt(d, h, h.shstrndx))
     && (forall i :: 0 <= i < h.shnum ==> SectionOk(d, h, SectionAt(d, h, h.shstrndx), i)))
  }

  /** The rules of elf_image_check.h. */
  predicate WellFormed(d: Image) {
    HasHeader(d) && ProgramsOk(d, ReadHeader(d)) && SectionsOk(d, ReadHeader(d))
  }
}

/** elf_image_check.c: every intermediate value is a uint64, so a sum or product that could
    overflow would not be accepted here. */
module ElfCheck {
  import opened Numbers
  import opened ElfImage

  type uint64 = x: int | 0 <= x < TWO_TO_64

  method RangeIsInside(offset: uint64, size: uint64, elfSize: uint64) returns (ok: bool)
    ensures ok <==> offset + size <= elfSize
  {
    if offset > elfSize {
      return false;
    }
    var room: uint64 := elfSize - offset;
    return size <= room;
  }

  method TableIsInside(offset: uint64, count: uint64, entrySize: uint64, elfSize: uint64) returns (ok: bool)
    ensures ok <==> count == 0 || offset + count * entrySize <= elfSize
  {
    if count == 0 {
      return true;
    }
    var most: uint64 := elfSize / count;
    if entrySize > most {
      ProductTooLarge(count, entrySize, elfSize);
      return false;
    }
    ProductFits(count, entrySize, elfSize);
    var bytes: uint64 := count * entrySize;
    ok := RangeIsInside(offset, bytes, elfSize);
  }

  lemma ProductFits(count: nat, entrySize: nat, elfSize: nat)
    requires 0 < count && entrySize <= elfSize / count
    ensures count * entrySize <= elfSize
  {
  }

  lemma ProductTooLarge(count: nat, entrySize: nat, elfSize: nat)
    requires 0 < count && entrySize > elfSize / count
    ensures count * entrySize > elfSize
  {
    assert count * entrySize >= count * (elfSize / count + 1);
  }

  /** check_programs */
  method CheckPrograms(d: Image, h: Header) returns (ok: bool)
    requires |d| < TWO_TO_64 && HasHeader(d) && h == ReadHeader(d)
    ensures ok <==> ProgramsOk(d, h)
  {
    if h.phnum == 0 {
      return true;
    }
    if h.phentsize < PhdrSize(h.is64) {
      return false;
    }
    var inside := TableIsInside(h.phoff, h.phnum, h.phentsize, |d|);
    if !inside {
      return false;
    }
    var i := 0;
    while i < h.phnum
      invariant 0 <= i <= h.phnum
      invariant forall k :: 0 <= k < i ==> ProgramOk(d, ProgramAt(d, h, k))
    {
      EntryInside(d, h.phoff, h.phnum, h.phentsize, i);
      var entry: uint64 := h.phoff + i * h.phentsize;
      var p := ReadProgram(d, h.is64, entry);
      assert p == ProgramAt(d, h, i);
      if p.type_ == PT_LOAD {
        var contents := RangeIsInside(p.offset, p.filesz, |d|);
        if !contents || p.filesz > p.memsz {
          return false;
        }
      }
      i := i + 1;
    }
    return true;
  }

  /** string_table_is_valid, for a section whose contents were found inside the file. */
  method StringTableIsValid(d: Image, s: Section) returns (ok: bool)
    requires |d| < TWO_TO_64 && ContentsInside(d, s)
    ensures ok <==> StringTable(d, s)
  {
    if s.type_ != SHT_STRTAB || s.size == 0 {
      return false;
    }
    var last: uint64 := s.offset + s.size - 1;
    return d[last] == 0;
  }

  /** check_symbol_table */
  method CheckSymbolTable(d: Image, h: Header, s: Section) returns (ok: bool)
    requires |d| < TWO_TO_64 && HasHeader(d) && h == ReadHeader(d) && SectionTable(d, h)
    requires forall i :: 0 <= i < h.shnum ==> ContentsInside(d, SectionAt(d, h, i))
    requires Inside(d, s.offset, s.size)
    ensures ok <==> SymbolTableOk(d, h, s)
  {
    var entrySize := SymSize(h.is64);
    if (s.entsize != 0 && s.entsize != entrySize) || s.link >= h.shnum {
      return false;
    }
    EntryInside(d, h.shoff, h.shnum, h.shentsize, s.link);
    var entry: uint64 := h.shoff + s.link * h.shentsize;
    var strings := ReadSection(d, h.is64, entry);
    assert strings == SectionAt(d, h, s.link);
    var valid := StringTableIsValid(d, strings);
    if !valid {
      return false;
    }
    var count: uint64 := s.size / entrySize;
    var i: uint64 := 0;
    while i < count
      invariant 0 <= i <= count
      invariant forall k {:trigger SymbolOffset(h, s, k)} :: 0 <= k < i ==>
                  SymbolOffset(h, s, k) + entrySize <= |d| && U32(d, SymbolOffset(h, s, k)) < strings.size
    {
      SymbolInside(d, h, s, i);
      var at: uint64 := s.offset + i * entrySize;
      assert at == SymbolOffset(h, s, i);
      if U32(d, at) >= strings.size {
        return false;
      }
      i := i + 1;
    }
    return true;
  }

  lemma SymbolInside(d: Image, h: Header, s: Section, i: nat)
    requires Inside(d, s.offset, s.size) && i < s.size / SymSize(h.is64)
    ensures SymbolOffset(h, s, i) + SymSize(h.is64) <= s.offset + s.size
  {
  }

  /** check_sections */
  method CheckSections(d: Image, h: Header) returns (ok: bool)
    requires |d| < TWO_TO_64 && HasHeader(d) && h == ReadHeader(d)
    ensures ok <==> SectionsOk(d, h)
  {
    if h.shnum == 0 {
      return true;
    }
    if h.shentsize < ShdrSize(h.is64) {
      return false;
    }
    var inside := TableIsInside(h.shoff, h.shnum, h.shentsize, |d|);
    if !inside {
      return false;
    }
    var contents := CheckContents(d, h);
    if !contents || h.shstrndx >= h.shnum {
      return false;
    }
    EntryInside(d, h.shoff, h.shnum, h.shentsize, h.shstrndx);
    var entry: uint64 := h.shoff + h.shstrndx * h.shentsize;
    var names := ReadSection(d, h.is64, entry);
    assert names == SectionAt(d, h, h.shstrndx);
    var valid := StringTableIsValid(d, names);
    if !valid {
      return false;
    }
    ok := CheckNames(d, h, names);
  }

  /** The first loop of check_sections. */
  method CheckContents(d: Image, h: Header) returns (ok: bool)
    requires |d| < TWO_TO_64 && HasHeader(d) && h == ReadHeader(d) && SectionTable(d, h)
    ensures ok <==> forall i :: 0 <= i < h.shnum ==> ContentsInside(d, SectionAt(d, h, i))
  {
    var i := 0;
    while i < h.shnum
      invariant 0 <= i <= h.shnum
      invariant forall k :: 0 <= k < i ==> ContentsInside(d, SectionAt(d, h, k))
    {
      EntryInside(d, h.shoff, h.shnum, h.shentsize, i);
      var entry: uint64 := h.shoff + i * h.shentsize;
      var s := ReadSection(d, h.is64, entry);
      assert s == SectionAt(d, h, i);
      if s.type_ != SHT_NULL && s.type_ != SHT_NOBITS {
        var inside := RangeIsInside(s.offset, s.size, |d|);
        if !inside {
          return false;
        }
      }
      i := i + 1;
    }
    return true;
  }

  /** The second loop of check_sections. */
  method CheckNames(d: Image, h: Header, names: Section) returns (ok: bool)
    requires |d| < TWO_TO_64 && HasHeader(d) && h == ReadHeader(d) && SectionTable(d, h)
    requires forall i :: 0 <= i < h.shnum ==> ContentsInside(d, SectionAt(d, h, i))
    ensures ok <==> forall i :: 0 <= i < h.shnum ==> SectionOk(d, h, names, i)
  {
    var i := 0;
    while i < h.shnum
      invariant 0 <= i <= h.shnum
      invariant forall k :: 0 <= k < i ==> SectionOk(d, h, names, k)
    {
      EntryInside(d, h.shoff, h.shnum, h.shentsize, i);
      var entry: uint64 := h.shoff + i * h.shentsize;
      var s := ReadSection(d, h.is64, entry);
      assert s == SectionAt(d, h, i) && ContentsInside(d, SectionAt(d, h, i));
      if s.name >= names.size {
        assert !SectionOk(d, h, names, i);
        return false;
      }
      if s.type_ == SHT_SYMTAB {
        var symbols := CheckSymbolTable(d, h, s);
        if !symbols {
          assert !SectionOk(d, h, names, i);
          return false;
        }
      }
      i := i + 1;
    }
    return true;
  }

  /** elf_image_check: sound and complete for the well-formedness rules, on every image. */
  method ElfImageCheck(d: Image) returns (ok: bool)
    requires |d| < TWO_TO_64
    ensures ok <==> WellFormed(d)
  {
    if |d| < 16 || !(d[0] == 0x7F && d[1] == 0x45 && d[2] == 0x4C && d[3] == 0x46) || d[5] != 1 {
      return false;
    }
    if d[4] == 1 {
      if |d| < 52 {
        return false;
      }
    } else if d[4] == 2 {
      if |d| < 64 {
        return false;
      }
    } else {
      return false;
    }
    var h := ReadHeader(d);
    ok := CheckPrograms(d, h);
    if ok {
      ok := CheckSections(d, h);
    }
  }
}
