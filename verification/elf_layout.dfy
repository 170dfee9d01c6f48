/**
  The structures of src/lib/loader/elf.h, each as the sizes of its members in order.  Every member lies at a multiple
  of its size, so there is no padding, and what the readers take from fixed offsets is the member they are named after.
 */
module ElfLayout {
  import opened Numbers
  import opened ElfImage
  import opened ElfSymbols

  type Layout = seq<nat>

  /** e_ident, e_type, e_machine, e_version, e_entry, e_phoff, e_shoff, e_flags, e_ehsize, e_phentsize, e_phnum,
      e_shentsize, e_shnum, e_shstrndx */
  const EHDR32: Layout := [16, 2, 2, 4, 4, 4, 4, 4, 2, 2, 2, 2, 2, 2]
  const EHDR64: Layout := [16, 2, 2, 4, 8, 8, 8, 4, 2, 2, 2, 2, 2, 2]

  /** p_type, p_offset, p_vaddr, p_paddr, p_filesz, p_memsz, p_flags, p_align */
  const PHDR32: Layout := [4, 4, 4, 4, 4, 4, 4, 4]

  /** p_type, p_flags, p_offset, p_vaddr, p_paddr, p_filesz, p_memsz, p_align */
  const PHDR64: Layout := [4, 4, 8, 8, 8, 8, 8, 8]

  /** sh_name, sh_type, sh_flags, sh_addr, sh_offset, sh_size, sh_link, sh_info, sh_addralign, sh_entsize */
  const SHDR32: Layout := [4, 4, 4, 4, 4, 4, 4, 4, 4, 4]
  const SHDR64: Layout := [4, 4, 8, 8, 8, 8, 4, 4, 8, 8]

  /** st_name, st_value, st_size, st_info, st_other, st_shndx */
  const SYM32: Layout := [4, 4, 4, 1, 1, 2]

  /** st_name, st_info, st_other, st_shndx, st_value, st_size */
  const SYM64: Layout := [4, 1, 1, 2, 8, 8]

  /** Where member `k` starts: after all members before it. */
  function Start(layout: Layout, k: nat): nat
    requires k <= |layout|
  {
    if k == 0 then 0 else Start(layout, k - 1) + layout[k - 1]
  }

  /** The number whose `n` bytes, least significant first, start at `o`. */
  function LittleEndian(d: Image, o: nat, n: nat): nat
    requires o + n <= |d|
    decreases n
  {
    if n == 0 then 0 else d[o] + 0x100 * LittleEndian(d, o + 1, n - 1)
  }

  predicate HasMember(d: Image, o: nat, layout: Layout, k: nat) {
    k < |layout| && o + Start(layout, k) + layout[k] <= |d|
  }

  /** Member `k` of the structure at `o`. */
  function Member(d: Image, o: nat, layout: Layout, k: nat): nat
    requires HasMember(d, o, layout, k)
  {
    LittleEndian(d, o + Start(layout, k), layout[k])
  }

  lemma NumbersAreLittleEndian(d: Image, o: nat)
    ensures o + 1 <= |d| ==> d[o] == LittleEndian(d, o, 1)
    ensures o + 2 <= |d| ==> U16(d, o) == LittleEndian(d, o, 2)
    ensures o + 4 <= |d| ==> U32(d, o) == LittleEndian(d, o, 4)
  {
    if o + 2 <= |d| {
      assert LittleEndian(d, o, 2) == d[o] + 0x100 * LittleEndian(d, o + 1, 1);
    }
    if o + 4 <= |d| {
      assert LittleEndian(d, o + 2, 2) == d[o + 2] + 0x100 * LittleEndian(d, o + 3, 1);
      assert LittleEndian(d, o, 4) == d[o] + 0x100 * LittleEndian(d, o + 1, 3);
    }
  }

  lemma LongIsLittleEndian(d: Image, o: nat)
    requires o + 8 <= |d|
    ensures U64(d, o) == LittleEndian(d, o, 8)
  {
    NumbersAreLittleEndian(d, o);
    NumbersAreLittleEndian(d, o + 4);
    assert LittleEndian(d, o + 2, 6) == d[o + 2] + 0x100 * LittleEndian(d, o + 3, 5);
    assert LittleEndian(d, o, 8) == d[o] + 0x100 * LittleEndian(d, o + 1, 7);
    assert LittleEndian(d, o + 2, 2) == d[o + 2] + 0x100 * LittleEndian(d, o + 3, 1);
    assert LittleEndian(d, o, 4) == d[o] + 0x100 * LittleEndian(d, o + 1, 3);
  }

  /** A member of 1, 2, 4 or 8 bytes, as the readers read it. */
  lemma MemberIs(d: Image, o: nat, layout: Layout, k: nat, at: nat)
    requires HasMember(d, o, layout, k) && Start(layout, k) == at
    ensures layout[k] == 1 ==> Member(d, o, layout, k) == d[o + at]
    ensures layout[k] == 2 ==> Member(d, o, layout, k) == U16(d, o + at)
    ensures layout[k] == 4 ==> Member(d, o, layout, k) == U32(d, o + at)
    ensures layout[k] == 8 ==> Member(d, o, layout, k) == U64(d, o + at)
  {
    NumbersAreLittleEndian(d, o + at);
    if layout[k] == 8 {
      LongIsLittleEndian(d, o + at);
    }
  }

  lemma StartsOfHeader()
    ensures Start(EHDR32, 1) == Start(EHDR64, 1) == 16 && Start(EHDR32, 2) == Start(EHDR64, 2) == 18
    ensures Start(EHDR32, 3) == Start(EHDR64, 3) == 20
    ensures Start(EHDR32, 5) == 28 && Start(EHDR32, 6) == 32 && Start(EHDR32, 9) == 42 && Start(EHDR32, 10) == 44
    ensures Start(EHDR32, 11) == 46 && Start(EHDR32, 12) == 48 && Start(EHDR32, 13) == 50 && Start(EHDR32, 14) == 52
    ensures Start(EHDR64, 5) == 32 && Start(EHDR64, 6) == 40 && Start(EHDR64, 9) == 54 && Start(EHDR64, 10) == 56
    ensures Start(EHDR64, 11) == 58 && Start(EHDR64, 12) == 60 && Start(EHDR64, 13) == 62 && Start(EHDR64, 14) == 64
  {
  }

  /** The header view holds e_phoff, e_shoff and the counts; the checks read e_type, e_machine and e_version. */
  lemma HeaderMembers(d: Image)
    requires HasHeader(d)
    ensures
      var layout, h := if Is64(d) then EHDR64 else EHDR32, ReadHeader(d);
      && EhdrSize(Is64(d)) == Start(layout, |layout|) && h.is64 == (d[4] == 2)
      && (forall k :: 0 <= k < |layout| ==> HasMember(d, 0, layout, k))
      && h.phoff == Member(d, 0, layout, 5) && h.shoff == Member(d, 0, layout, 6)
      && h.phentsize == Member(d, 0, layout, 9) && h.phnum == Member(d, 0, layout, 10)
      && h.shentsize == Member(d, 0, layout, 11) && h.shnum == Member(d, 0, layout, 12)
      && h.shstrndx == Member(d, 0, layout, 13)
      && U16(d, 16) == Member(d, 0, layout, 1) && U16(d, 18) == Member(d, 0, layout, 2)
      && U32(d, 20) == Member(d, 0, layout, 3)
  {
    var layout := if Is64(d) then EHDR64 else EHDR32;
    StartsOfHeader();
    MembersInside(d, 0, layout);
    MemberIs(d, 0, layout, 1, 16);
    MemberIs(d, 0, layout, 2, 18);
    MemberIs(d, 0, layout, 3, 20);
    MemberIs(d, 0, layout, 5, if Is64(d) then 32 else 28);
    MemberIs(d, 0, layout, 6, if Is64(d) then 40 else 32);
    MemberIs(d, 0, layout, 9, if Is64(d) then 54 else 42);
    MemberIs(d, 0, layout, 10, if Is64(d) then 56 else 44);
    MemberIs(d, 0, layout, 11, if Is64(d) then 58 else 46);
    MemberIs(d, 0, layout, 12, if Is64(d) then 60 else 48);
    MemberIs(d, 0, layout, 13, if Is64(d) then 62 else 50);
  }

  lemma {:induction false} StartsGrow(layout: Layout, k: nat, n: nat)
    requires k <= n <= |layout|
    ensures Start(layout, k) <= Start(layout, n)
    decreases n
  {
    if k < n {
      StartsGrow(layout, k, n - 1);
    }
  }

  lemma MembersInside(d: Image, o: nat, layout: Layout)
    requires o + Start(layout, |layout|) <= |d|
    ensures forall k :: 0 <= k < |layout| ==> HasMember(d, o, layout, k)
  {
    forall k | 0 <= k < |layout|
      ensures HasMember(d, o, layout, k)
    {
      StartsGrow(layout, k + 1, |layout|);
    }
  }

  lemma StartsOfProgram()
    ensures Start(PHDR32, 1) == 4 && Start(PHDR32, 3) == 12 && Start(PHDR32, 4) == 16 && Start(PHDR32, 5) == 20
    ensures Start(PHDR32, 8) == 32
    ensures Start(PHDR64, 2) == 8 && Start(PHDR64, 4) == 24 && Start(PHDR64, 5) == 32 && Start(PHDR64, 6) == 40
    ensures Start(PHDR64, 8) == 56
  {
  }

  /** The program header view: type, file offset, physical address, and the sizes in the file and in memory. */
  lemma ProgramMembers(d: Image, is64: bool, o: nat)
    requires o + PhdrSize(is64) <= |d|
    ensures
      var layout, p := if is64 then PHDR64 else PHDR32, ReadProgram(d, is64, o);
      && PhdrSize(is64) == Start(layout, |layout|)
      && (forall k :: 0 <= k < |layout| ==> HasMember(d, o, layout, k))
      && p.type_ == Member(d, o, layout, 0)
      && p.offset == Member(d, o, layout, if is64 then 2 else 1)
      && p.paddr == Member(d, o, layout, if is64 then 4 else 3)
      && p.filesz == Member(d, o, layout, if is64 then 5 else 4)
      && p.memsz == Member(d, o, layout, if is64 then 6 else 5)
  {
    var layout := if is64 then PHDR64 else PHDR32;
    StartsOfProgram();
    MembersInside(d, o, layout);
    MemberIs(d, o, layout, 0, 0);
    MemberIs(d, o, layout, if is64 then 2 else 1, if is64 then 8 else 4);
    MemberIs(d, o, layout, if is64 then 4 else 3, if is64 then 24 else 12);
    MemberIs(d, o, layout, if is64 then 5 else 4, if is64 then 32 else 16);
    MemberIs(d, o, layout, if is64 then 6 else 5, if is64 then 40 else 20);
  }

  lemma StartsOfSection()
    ensures Start(SHDR32, 1) == 4 && Start(SHDR32, 4) == 16 && Start(SHDR32, 5) == 20 && Start(SHDR32, 6) == 24
    ensures Start(SHDR32, 9) == 36 && Start(SHDR32, 10) == 40
    ensures Start(SHDR64, 1) == 4 && Start(SHDR64, 4) == 24 && Start(SHDR64, 5) == 32 && Start(SHDR64, 6) == 40
    ensures Start(SHDR64, 9) == 56 && Start(SHDR64, 10) == 64
  {
  }

  /** The section header view: name, type, offset, size, link and entry size. */
  lemma SectionMembers(d: Image, is64: bool, o: nat)
    requires o + ShdrSize(is64) <= |d|
    ensures
      var layout, s := if is64 then SHDR64 else SHDR32, ReadSection(d, is64, o);
      && ShdrSize(is64) == Start(layout, |layout|)
      && (forall k :: 0 <= k < |layout| ==> HasMember(d, o, layout, k))
      && s.name == Member(d, o, layout, 0) && s.type_ == Member(d, o, layout, 1)
      && s.offset == Member(d, o, layout, 4) && s.size == Member(d, o, layout, 5)
      && s.link == Member(d, o, layout, 6) && s.entsize == Member(d, o, layout, 9)
  {
    var layout := if is64 then SHDR64 else SHDR32;
    StartsOfSection();
    MembersInside(d, o, layout);
    MemberIs(d, o, layout, 0, 0);
    MemberIs(d, o, layout, 1, 4);
    MemberIs(d, o, layout, 4, if is64 then 24 else 16);
    MemberIs(d, o, layout, 5, if is64 then 32 else 20);
    MemberIs(d, o, layout, 6, if is64 then 40 else 24);
    MemberIs(d, o, layout, 9, if is64 then 56 else 36);
  }

  lemma StartsOfSymbol()
    ensures Start(SYM32, 1) == 4 && Start(SYM32, 2) == 8 && Start(SYM32, 3) == 12 && Start(SYM32, 6) == 16
    ensures Start(SYM64, 1) == 4 && Start(SYM64, 4) == 8 && Start(SYM64, 5) == 16 && Start(SYM64, 6) == 24
  {
  }

  /** A symbol as the reader gives it: value, size, name and the type in the low half of st_info. */
  lemma SymbolMembers(d: Image, is64: bool, o: nat, strings: nat, symbol: Symbol)
    requires o + SymSize(is64) <= |d| && SymbolIs(d, is64, o, strings, symbol)
    ensures
      var layout := if is64 then SYM64 else SYM32;
      && SymSize(is64) == Start(layout, |layout|)
      && (forall k :: 0 <= k < |layout| ==> HasMember(d, o, layout, k))
      && var size := Member(d, o, layout, if is64 then 5 else 2);
         && (symbol.NoSymbol? <==> size >= TWO_TO_32)
         && (symbol.Symbol? ==>
             && symbol.addr == Member(d, o, layout, if is64 then 4 else 1) && symbol.size == size
             && symbol.type_ == TypeOf(Member(d, o, layout, if is64 then 1 else 3))
             && var name := strings + Member(d, o, layout, 0);
                && name + |symbol.name| < |d| && d[name + |symbol.name|] == 0 && 0 !in symbol.name
                && symbol.name == d[name..name + |symbol.name|])
  {
    var layout := if is64 then SYM64 else SYM32;
    StartsOfSymbol();
    MembersInside(d, o, layout);
    MemberIs(d, o, layout, 0, 0);
    MemberIs(d, o, layout, if is64 then 4 else 1, if is64 then 8 else 4);
    MemberIs(d, o, layout, if is64 then 5 else 2, if is64 then 16 else 8);
    MemberIs(d, o, layout, if is64 then 1 else 3, if is64 then 4 else 12);
  }

  /** st_info is 16 times the binding plus the type: only the type counts. */
  lemma TypeIgnoresBinding(binding: nat, type_: nat)
    requires type_ < 16
    ensures TypeOf(16 * binding + type_) ==
            if type_ < 3 then [NoType, ObjectSymbol, FuncSymbol][type_] else Unsupported
  {
    assert (16 * binding + type_) % 16 == type_;
  }
}
