/**
  An image that elf_image_check accepts and the 32-bit symbol reader misreads: its section headers begin four
  bytes below 4 GiB, so the reader takes bytes of the ELF header for the second one.
 */
module ElfWrap {
  import opened Numbers
  import opened ElfImage
  import opened ElfSymbols

  /** Start of the section headers, and the size of the image. */
  const TABLE: nat := 0xFFFF_FFFC
  const SIZE: nat := 0x1_0000_0074

  function ByteAt(k: nat): byte {
    if k < 6 then [0x7F, 0x45, 0x4C, 0x46, 1, 1][k]
    else if k == 32 then 0xFC // e_shoff
    else if 33 <= k < 36 then 0xFF
    else if k == 40 then 2 // e_ehsize; the reader takes it for sh_type
    else if k == 46 then 40 // e_shentsize
    else if k == 48 then 3 // e_shnum
    else if 52 <= k < 56 then 0xFF // taken for sh_offset
    else if k == 56 then 0xF0 // taken for sh_size
    else if 57 <= k < 60 then 0xFF
    else if k == 80 then 3 // taken for the sh_type of a string table
    else if k == 0x1_0000_0000 then 3 // section 0: the section names, one NUL at offset 100
    else if k == 0x1_0000_000C then 100
    else if k == 0x1_0000_0010 then 1
    else 0
  }

  function WrappingImage(): (d: Image)
    ensures |d| == SIZE
  {
    seq(SIZE, (k: int) => if k < 0 then 0 else ByteAt(k))
  }

  lemma WordAt(d: Image, o: nat)
    requires d == WrappingImage() && o + 4 <= SIZE
    ensures U32(d, o) == ByteAt(o) + 0x100 * ByteAt(o + 1) + 0x1_0000 * ByteAt(o + 2) + 0x100_0000 * ByteAt(o + 3)
  {
  }

  lemma HalfAt(d: Image, o: nat)
    requires d == WrappingImage() && o + 2 <= SIZE
    ensures U16(d, o) == ByteAt(o) + 0x100 * ByteAt(o + 1)
  {
  }

  const HEADER := Header(false, 0, TABLE, 0, 0, 40, 3, 0)

  lemma HeaderOfImage(d: Image)
    requires d == WrappingImage()
    ensures HasHeader(d) && !Is64(d) && ReadHeader(d) == HEADER && SectionTable(d, HEADER)
  {
    WordAt(d, 28);
    WordAt(d, 32);
    HalfAt(d, 42);
    HalfAt(d, 44);
    HalfAt(d, 46);
    HalfAt(d, 48);
    HalfAt(d, 50);
  }

  /** A section header, from its six words. */
  lemma SectionFrom(d: Image, o: nat, s: Section)
    requires d == WrappingImage() && o + 40 <= SIZE
    requires U32(d, o) == s.name && U32(d, o + 4) == s.type_ && U32(d, o + 16) == s.offset
    requires U32(d, o + 20) == s.size && U32(d, o + 24) == s.link && U32(d, o + 36) == s.entsize
    ensures ReadSection(d, false, o) == s
  {
  }

  lemma NamesSection(d: Image)
    requires d == WrappingImage()
    ensures ReadSection(d, false, TABLE) == Section(0, SHT_STRTAB, 100, 1, 0, 0)
  {
    WordAt(d, 0xFFFF_FFFC);
    WordAt(d, 0x1_0000_0000);
    WordAt(d, 0x1_0000_000C);
    WordAt(d, 0x1_0000_0010);
    WordAt(d, 0x1_0000_0014);
    WordAt(d, 0x1_0000_0020);
    SectionFrom(d, TABLE, Section(0, SHT_STRTAB, 100, 1, 0, 0));
  }

  lemma NullSection(d: Image, o: nat)
    requires d == WrappingImage() && 0x1_0000_0020 <= o && o + 40 <= SIZE
    ensures ReadSection(d, false, o) == Section(0, SHT_NULL, 0, 0, 0, 0)
  {
    WordAt(d, o);
    WordAt(d, o + 4);
    WordAt(d, o + 16);
    WordAt(d, o + 20);
    WordAt(d, o + 24);
    WordAt(d, o + 36);
    SectionFrom(d, o, Section(0, SHT_NULL, 0, 0, 0, 0));
  }

  lemma FakeSymbols(d: Image)
    requires d == WrappingImage()
    ensures ReadSection(d, false, 36).type_ == SHT_SYMTAB && ReadSection(d, false, 36).offset == 0xFFFF_FFFF
    ensures ReadSection(d, false, 36).size == 0xFFFF_FFF0 && ReadSection(d, false, 36).link == 0
  {
    WordAt(d, 40);
    WordAt(d, 52);
    WordAt(d, 56);
    WordAt(d, 60);
  }

  lemma FakeStrings(d: Image)
    requires d == WrappingImage()
    ensures ReadSection(d, false, 76).type_ == SHT_STRTAB
  {
    WordAt(d, 80);
  }

  /** What the reader sees: a symbol table that begins just below 4 GiB, and a string table. */
  lemma SectionsSeen(d: Image)
    requires d == WrappingImage() && SectionTable(d, HEADER)
    ensures SeesSymbols(d, HEADER, 1) && !SeesSymbols(d, HEADER, 2) && SeesStrings(d, HEADER, 2)
    ensures Followed(d, HEADER, 1) == Symbols(1, 0xFFFF_FFFF, 0x0FFF_FFFF, 100)
  {
    assert Entry32(HEADER, 0) == TABLE && Entry32(HEADER, 1) == 36 && Entry32(HEADER, 2) == 76;
    FakeSymbols(d);
    FakeStrings(d);
    NamesSection(d);
  }

  lemma SectionsOfImage(d: Image)
    requires d == WrappingImage() && SectionTable(d, HEADER)
    ensures SectionAt(d, HEADER, 0) == Section(0, SHT_STRTAB, 100, 1, 0, 0) && d[100] == 0
    ensures SectionAt(d, HEADER, 1) == SectionAt(d, HEADER, 2) == Section(0, SHT_NULL, 0, 0, 0, 0)
  {
    NamesSection(d);
    NullSection(d, TABLE + 40);
    NullSection(d, TABLE + 80);
  }

  /** One string table at offset 100, which names all sections, and two empty sections. */
  lemma SectionsAreOk(d: Image, h: Header)
    requires SectionTable(d, h) && h.shnum == 3 && h.shstrndx == 0 && 101 <= |d| && d[100] == 0
    requires SectionAt(d, h, 0) == Section(0, SHT_STRTAB, 100, 1, 0, 0)
    requires SectionAt(d, h, 1) == SectionAt(d, h, 2) == Section(0, SHT_NULL, 0, 0, 0, 0)
    ensures SectionsOk(d, h)
  {
    forall i | 0 <= i < h.shnum
      ensures ContentsInside(d, SectionAt(d, h, i)) && SectionOk(d, h, SectionAt(d, h, 0), i)
    {
      assert i == 0 || i == 1 || i == 2;
    }
  }

  /** So the image is accepted, and the ninth symbol of the table the reader loads lies outside it.  It is larger than
      any file that file_load reads. */
  lemma WrappedReaderLeavesImage(d: Image)
    requires d == WrappingImage()
    ensures WellFormed(d) && !Is64(d) && ReadHeader(d) == HEADER && !StartsBelow4G(HEADER)
    ensures MAX_LOAD_FILE_SIZE < TWO_TO_32 < |d|
    ensures SeesSymbols(d, HEADER, 1) && !SeesSymbols(d, HEADER, 2) && SeesStrings(d, HEADER, 2)
    ensures
      var r := Followed(d, HEADER, 1);
      r.Symbols? && 8 < r.count && r.offset + 8 * SymSize(false) + SymSize(false) > |d|
  {
    HeaderOfImage(d);
    SectionsOfImage(d);
    SectionsAreOk(d, HEADER);
    SectionsSeen(d);
  }
}
