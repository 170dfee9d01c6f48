/**
  The symbol readers of src/lib/dwarf/elf_section.c.  They follow offsets without bounds checks of
  their own; here every access is an indexed read of the image, so each method below holds only
  because the image was checked first.
 */
module ElfSymbols {
  import opened Numbers
  import opened ElfImage

  /** What elf_symbol_load remembers: the symbol table (as a section index), the position and number
      of its entries, and the position of its string table. */
  datatype Symbols = NoSymbols | Stray | Symbols(section: nat, offset: nat, count: nat, strings: nat)

  /** Consistent with section `section` of the image. */
  ghost predicate Loaded(d: Image, h: Header, r: Symbols)
    requires SectionTable(d, h)
  {
    && r.Symbols? && r.section < h.shnum && SectionAt(d, h, r.section).type_ == SHT_SYMTAB
    && SectionAt(d, h, r.section).link < h.shnum
    && r.offset == SectionAt(d, h, r.section).offset
    && r.count == SectionAt(d, h, r.section).size / SymSize(h.is64)
    && r.strings == SectionAt(d, h, SectionAt(d, h, r.section).link).offset
  }

  /** No section with index in [from, to) is a symbol table. */
  ghost predicate NoSymbolTable(d: Image, h: Header, from: nat, to: nat)
    requires SectionTable(d, h) && to <= h.shnum
  {
    forall k :: from <= k < to ==> SectionAt(d, h, k).type_ != SHT_SYMTAB
  }

  /** The first symbol table has more than 2^32 - 1 bytes. */
  ghost predicate FirstTableTooLarge(d: Image, h: Header)
    requires SectionTable(d, h)
  {
    exists k :: 0 <= k < h.shnum && SectionAt(d, h, k).type_ == SHT_SYMTAB
      && SectionAt(d, h, k).size > 0xFFFF_FFFF && NoSymbolTable(d, h, 0, k)
  }

  lemma SymbolTableChecked(d: Image, i: nat)
    requires WellFormed(d) && ReadHeader(d).shnum > 0 && i < ReadHeader(d).shnum
    requires SectionAt(d, ReadHeader(d), i).type_ == SHT_SYMTAB
    ensures Inside(d, SectionAt(d, ReadHeader(d), i).offset, SectionAt(d, ReadHeader(d), i).size)
    ensures SymbolTableOk(d, ReadHeader(d), SectionAt(d, ReadHeader(d), i))
  {
    var h := ReadHeader(d);
    assert ContentsInside(d, SectionAt(d, h, i)) && SectionOk(d, h, SectionAt(d, h, h.shstrndx), i);
  }

  /** The table that the ELF64 loader takes from symbol table section `i`. */
  method Table64(d: Image, h: Header, i: nat) returns (r: Symbols)
    requires WellFormed(d) && Is64(d) && h == ReadHeader(d) && i < h.shnum && SectionAt(d, h, i).type_ == SHT_SYMTAB
    ensures if SectionAt(d, h, i).size > 0xFFFF_FFFF then r.NoSymbols?
            else r.Symbols? && r.section == i && Loaded(d, h, r)
  {
    EntryInside(d, h.shoff, h.shnum, h.shentsize, i);
    var s := ReadSection(d, true, h.shoff + i * h.shentsize);
    SymbolTableChecked(d, i);
    if s.size > 0xFFFF_FFFF {
      return NoSymbols;
    }
    EntryInside(d, h.shoff, h.shnum, h.shentsize, s.link);
    var strings := ReadSection(d, true, h.shoff + s.link * h.shentsize);
    return Symbols(i, s.offset, s.size / (if s.entsize != 0 then s.entsize else 24), strings.offset);
  }

  /** The search loop: the first symbol table, or the number of sections. */
  method FirstSymbolTable(d: Image, h: Header) returns (i: nat)
    requires SectionTable(d, h) && h.is64
    ensures i <= h.shnum && NoSymbolTable(d, h, 0, i) && (i < h.shnum ==> SectionAt(d, h, i).type_ == SHT_SYMTAB)
  {
    i := 0;
    while i < h.shnum
      invariant i <= h.shnum && NoSymbolTable(d, h, 0, i)
    {
      EntryInside(d, h.shoff, h.shnum, h.shentsize, i);
      var s := ReadSection(d, true, h.shoff + i * h.shentsize);
      assert s == SectionAt(d, h, i);
      if s.type_ == SHT_SYMTAB {
        return;
      }
      i := i + 1;
    }
  }

  lemma FirstTooLargeIff(d: Image, h: Header, i: nat)
    requires SectionTable(d, h) && i < h.shnum && NoSymbolTable(d, h, 0, i) && SectionAt(d, h, i).type_ == SHT_SYMTAB
    ensures FirstTableTooLarge(d, h) <==> SectionAt(d, h, i).size > 0xFFFF_FFFF
    ensures !NoSymbolTable(d, h, 0, h.shnum)
  {
  }

  /** elf_symbol_load for ELF64: the first symbol table, unless it is larger than 4 GiB.  (The code's
      own tests of sh_link and of the string table's type repeat what the check established.) */
  method Load64(d: Image) returns (r: Symbols)
    requires WellFormed(d) && Is64(d)
    ensures ReadHeader(d).shnum == 0 ==> r.NoSymbols?
    ensures !r.Stray?
    ensures ReadHeader(d).shnum > 0 && r.Symbols? ==>
              Loaded(d, ReadHeader(d), r) && NoSymbolTable(d, ReadHeader(d), 0, r.section)
    ensures ReadHeader(d).shnum > 0 ==>
              (r.NoSymbols? <==>
               NoSymbolTable(d, ReadHeader(d), 0, ReadHeader(d).shnum) || FirstTableTooLarge(d, ReadHeader(d)))
  {
    var h := ReadHeader(d);
    if h.shnum == 0 {
      return NoSymbols;
    }
    var i := FirstSymbolTable(d, h);
    if i == h.shnum {
      return NoSymbols;
    }
    FirstTooLargeIff(d, h, i);
    r := Table64(d, h, i);
  }

  /** Where the 32-bit reader looks for section header `i`: offsets wrap at 32 bits. */
  function Entry32(h: Header, i: nat): nat {
    (h.shoff + i * h.shentsize) % TWO_TO_32
  }

  /** The last section header starts in the first 4 GiB. */
  predicate StartsBelow4G(h: Header) {
    h.shnum == 0 || EntryAt(h.shoff, h.shentsize, h.shnum - 1) < TWO_TO_32
  }

  /** The 32-bit offsets are right for every section exactly under that condition. */
  lemma Entry32ExactIff(h: Header)
    ensures (forall i :: 0 <= i < h.shnum ==> Entry32(h, i) == EntryAt(h.shoff, h.shentsize, i)) <==> StartsBelow4G(h)
  {
    if StartsBelow4G(h) {
      forall i | 0 <= i < h.shnum
        ensures Entry32(h, i) == EntryAt(h.shoff, h.shentsize, i)
      {
        EntriesFollow(h, i);
      }
    } else {
      assert Entry32(h, h.shnum - 1) < TWO_TO_32;
    }
  }

  lemma EntriesFollow(h: Header, i: nat)
    requires i < h.shnum
    ensures EntryAt(h.shoff, h.shentsize, i) <= EntryAt(h.shoff, h.shentsize, h.shnum - 1)
  {
    assert i * h.shentsize <= (h.shnum - 1) * h.shentsize;
  }

  /** The section header the 32-bit reader takes for number `i`; it always lies inside the image. */
  function Section32(d: Image, h: Header, i: nat): Section
    requires SectionTable(d, h) && !h.is64 && i < h.shnum
  {
    Entry32Inside(d, h, i);
    ReadSection(d, false, Entry32(h, i))
  }

  lemma Entry32Inside(d: Image, h: Header, i: nat)
    requires SectionTable(d, h) && !h.is64 && i < h.shnum
    ensures Entry32(h, i) + 40 <= |d|
  {
    EntryInside(d, h.shoff, h.shnum, h.shentsize, i);
  }

  lemma Section32Exact(d: Image, h: Header, i: nat)
    requires SectionTable(d, h) && !h.is64 && i < h.shnum && StartsBelow4G(h)
    ensures Section32(d, h, i) == SectionAt(d, h, i)
  {
    Entry32ExactIff(h);
  }

  /** What the 32-bit reader sees: a symbol table, other than at the section names' index. */
  predicate SeesSymbols(d: Image, h: Header, i: nat)
    requires SectionTable(d, h) && !h.is64 && i < h.shnum
  {
    i != h.shstrndx && Section32(d, h, i).type_ == SHT_SYMTAB
  }

  predicate SeesStrings(d: Image, h: Header, i: nat)
    requires SectionTable(d, h) && !h.is64 && i < h.shnum
  {
    i != h.shstrndx && Section32(d, h, i).type_ == SHT_STRTAB
  }

  /** The result for the last symbol table seen, at `i`: its own header is followed without a check.  Stray: the
      string table's header, found through sh_link, lies outside the image. */
  function Followed(d: Image, h: Header, i: nat): Symbols
    requires SectionTable(d, h) && !h.is64 && i < h.shnum
  {
    var s := Section32(d, h, i);
    if Entry32(h, s.link) + 40 > |d| then Stray
    else Symbols(i, s.offset, s.size / 16, ReadSection(d, false, Entry32(h, s.link)).offset)
  }

  /** elf_symbol_load for ELF32, on every accepted image: the last symbol table it sees, provided it sees a string
      table. */
  method Load32(d: Image) returns (r: Symbols)
    requires WellFormed(d) && !Is64(d)
    ensures ReadHeader(d).shnum == 0 ==> r.NoSymbols?
    ensures ReadHeader(d).shnum > 0 ==>
              var h := ReadHeader(d);
              if (forall k :: 0 <= k < h.shnum ==> !SeesSymbols(d, h, k))
                 || (forall k :: 0 <= k < h.shnum ==> !SeesStrings(d, h, k))
              then r.NoSymbols?
              else exists i :: 0 <= i < h.shnum && SeesSymbols(d, h, i) && r == Followed(d, h, i)
                     && forall k :: i < k < h.shnum ==> !SeesSymbols(d, h, k)
  {
    var h := ReadHeader(d);
    if h.shnum == 0 {
      return NoSymbols;
    }
    var symtab, hasStrings, i := -1, false, 0;
    while i < h.shnum
      invariant 0 <= i <= h.shnum && -1 <= symtab < i
      invariant symtab >= 0 ==> SeesSymbols(d, h, symtab)
      invariant forall k :: symtab < k < i ==> !SeesSymbols(d, h, k)
      invariant hasStrings <==> exists k :: 0 <= k < i && SeesStrings(d, h, k)
    {
      Entry32Inside(d, h, i);
      var s := ReadSection(d, false, Entry32(h, i));
      assert s == Section32(d, h, i);
      if i != h.shstrndx {
        if s.type_ == SHT_SYMTAB {
          symtab := i;
        } else if s.type_ == SHT_STRTAB {
          hasStrings := true;
          assert SeesStrings(d, h, i);
        }
      }
      i := i + 1;
    }
    if symtab < 0 || !hasStrings {
      return NoSymbols;
    }
    Entry32Inside(d, h, symtab);
    var s := ReadSection(d, false, Entry32(h, symtab));
    if Entry32(h, s.link) + 40 > |d| {
      return Stray;
    }
    r := Symbols(symtab, s.offset, s.size / 16, ReadSection(d, false, Entry32(h, s.link)).offset);
  }

  /** Where no offset wraps, what the reader follows is a checked symbol table and its string table. */
  lemma FollowedIsLoaded(d: Image, h: Header, i: nat)
    requires WellFormed(d) && !Is64(d) && h == ReadHeader(d) && i < h.shnum && StartsBelow4G(h)
    requires SeesSymbols(d, h, i)
    ensures Loaded(d, h, Followed(d, h, i))
  {
    Section32Exact(d, h, i);
    SymbolTableChecked(d, i);
    var link := SectionAt(d, h, i).link;
    Section32Exact(d, h, link);
    Entry32ExactIff(h);
    Entry32Inside(d, h, link);
  }

  /** file_load refuses larger files. */
  const MAX_LOAD_FILE_SIZE: nat := 0x4000_0000

  /** No offset wraps in an image of at most 4 GiB, so in none that the program can load. */
  lemma SmallImageStartsBelow4G(d: Image)
    requires WellFormed(d) && |d| <= TWO_TO_32
    ensures StartsBelow4G(ReadHeader(d))
  {
    var h := ReadHeader(d);
    if h.shnum > 0 {
      EntryInside(d, h.shoff, h.shnum, h.shentsize, h.shnum - 1);
    }
  }

  /** A string table other than the section names. */
  ghost predicate HasOtherStrings(d: Image, h: Header)
    requires SectionTable(d, h)
  {
    exists k :: 0 <= k < h.shnum && k != h.shstrndx && SectionAt(d, h, k).type_ == SHT_STRTAB
  }

  /** Where no offset wraps, the 32-bit reader sees the sections as they are. */
  lemma SeesIff(d: Image, h: Header, k: nat)
    requires WellFormed(d) && !Is64(d) && h == ReadHeader(d) && k < h.shnum && StartsBelow4G(h)
    ensures SeesSymbols(d, h, k) <==> SectionAt(d, h, k).type_ == SHT_SYMTAB
    ensures SeesStrings(d, h, k) <==> k != h.shstrndx && SectionAt(d, h, k).type_ == SHT_STRTAB
  {
    Section32Exact(d, h, k);
  }

  lemma SeesAll(d: Image, h: Header)
    requires WellFormed(d) && !Is64(d) && h == ReadHeader(d) && 0 < h.shnum && StartsBelow4G(h)
    ensures forall k :: 0 <= k < h.shnum ==> (SeesSymbols(d, h, k) <==> SectionAt(d, h, k).type_ == SHT_SYMTAB)
    ensures (forall k :: 0 <= k < h.shnum ==> !SeesStrings(d, h, k)) <==> !HasOtherStrings(d, h)
  {
    forall k | 0 <= k < h.shnum
      ensures SeesSymbols(d, h, k) <==> SectionAt(d, h, k).type_ == SHT_SYMTAB
      ensures SeesStrings(d, h, k) <==> k != h.shstrndx && SectionAt(d, h, k).type_ == SHT_STRTAB
    {
      SeesIff(d, h, k);
    }
  }

  /** No symbol table of a file that fits in memory is too large. */
  lemma NoneTooLarge(d: Image)
    requires WellFormed(d) && |d| <= MAX_LOAD_FILE_SIZE && ReadHeader(d).shnum > 0
    ensures !FirstTableTooLarge(d, ReadHeader(d))
  {
    var h := ReadHeader(d);
    forall k | 0 <= k < h.shnum && SectionAt(d, h, k).type_ == SHT_SYMTAB
      ensures SectionAt(d, h, k).size <= 0xFFFF_FFFF
    {
      SymbolTableChecked(d, k);
    }
  }

  /** elf_symbol_load: on every file that file_load and elf_image_check accept, there are symbols exactly when the image
      has a symbol table and, for ELF32, a string table besides the section names.  They are those of the first (ELF64)
      or last (ELF32) symbol table, with its string table, and then every symbol can be read. */
  method LoadSymbols(d: Image) returns (r: Symbols)
    requires WellFormed(d) && |d| <= MAX_LOAD_FILE_SIZE
    ensures ReadHeader(d).shnum == 0 ==> r.NoSymbols?
    ensures ReadHeader(d).shnum > 0 ==>
              var h := ReadHeader(d);
              if NoSymbolTable(d, h, 0, h.shnum) || (!Is64(d) && !HasOtherStrings(d, h)) then r.NoSymbols?
              else Loaded(d, h, r) && if Is64(d) then NoSymbolTable(d, h, 0, r.section)
                                      else NoSymbolTable(d, h, r.section + 1, h.shnum)
  {
    ghost var h := ReadHeader(d);
    if Is64(d) {
      r := Load64(d);
      if h.shnum > 0 {
        NoneTooLarge(d);
      }
    } else {
      r := Load32(d);
      SmallImageStartsBelow4G(d);
      if h.shnum > 0 {
        SeesAll(d, h);
      }
      if !r.NoSymbols? {
        ghost var i :| 0 <= i < h.shnum && SeesSymbols(d, h, i) && r == Followed(d, h, i)
                       && forall k :: i < k < h.shnum ==> !SeesSymbols(d, h, k);
        FollowedIsLoaded(d, h, i);
      }
    }
  }

  /** A NUL follows. */
  ghost predicate Terminated(d: Image, o: nat) {
    exists k :: o <= k < |d| && d[k] == 0
  }

  /** A NUL-terminated string. */
  function CString(d: Image, o: nat): (s: seq<byte>)
    requires Terminated(d, o)
    ensures o + |s| < |d| && d[o + |s|] == 0 && s == d[o..o + |s|] && 0 !in s
    decreases |d| - o
  {
    if d[o] == 0 then [] else [d[o]] + CString(d, o + 1)
  }

  /** Symbol types: STT_OBJECT, STT_FUNC, STT_NOTYPE, anything else. */
  datatype SymbolType = ObjectSymbol | FuncSymbol | NoType | Unsupported

  function TypeOf(info: nat): SymbolType {
    match info % 16
    case 1 => ObjectSymbol
    case 2 => FuncSymbol
    case 0 => NoType
    case _ => Unsupported
  }

  datatype Symbol = NoSymbol | Symbol(addr: nat, size: nat, type_: SymbolType, name: seq<byte>)

  /** A name that starts inside a checked string table ends inside it. */
  lemma NameTerminates(d: Image, strings: Section, name: nat)
    requires StringTable(d, strings) && name < strings.size
    ensures Terminated(d, strings.offset + name)
  {
  }

  /** Where the loaded table has its symbol `index`, and that its name ends inside the image. */
  lemma SymbolInside(d: Image, r: Symbols, index: nat)
    requires WellFormed(d) && ReadHeader(d).shnum > 0 && Loaded(d, ReadHeader(d), r) && index < r.count
    ensures
      var h := ReadHeader(d);
      var o := SymbolOffset(h, SectionAt(d, h, r.section), index);
      && o == r.offset + index * SymSize(h.is64) && o + SymSize(h.is64) <= |d|
      && Terminated(d, r.strings + U32(d, o))
  {
    var h := ReadHeader(d);
    var s := SectionAt(d, h, r.section);
    SymbolTableChecked(d, r.section);
    NameTerminates(d, SectionAt(d, h, s.link), U32(d, SymbolOffset(h, s, index)));
  }

  /** The symbol that the entry at `o` describes. */
  ghost predicate SymbolIs(d: Image, is64: bool, o: nat, strings: nat, symbol: Symbol)
    requires o + SymSize(is64) <= |d|
  {
    && (symbol.NoSymbol? <==> is64 && U64(d, o + 16) > 0xFFFF_FFFF)
    && (symbol.Symbol? ==>
          && symbol.addr == (if is64 then U64(d, o + 8) else U32(d, o + 4))
          && symbol.size == (if is64 then U64(d, o + 16) else U32(d, o + 8))
          && symbol.type_ == TypeOf(if is64 then d[o + 4] else d[o + 12])
          && Terminated(d, strings + U32(d, o)) && symbol.name == CString(d, strings + U32(d, o))
          && strings + U32(d, o) + |symbol.name| < |d|)
  }

  method Symbol64(d: Image, o: nat, strings: nat) returns (symbol: Symbol)
    requires o + 24 <= |d| && Terminated(d, strings + U32(d, o))
    ensures SymbolIs(d, true, o, strings, symbol)
  {
    if U64(d, o + 16) > 0xFFFF_FFFF {
      return NoSymbol;
    }
    return Symbol(U64(d, o + 8), U64(d, o + 16), TypeOf(d[o + 4]), CString(d, strings + U32(d, o)));
  }

  method Symbol32(d: Image, o: nat, strings: nat) returns (symbol: Symbol)
    requires o + 16 <= |d| && Terminated(d, strings + U32(d, o))
    ensures SymbolIs(d, false, o, strings, symbol)
  {
    return Symbol(U32(d, o + 4), U32(d, o + 8), TypeOf(d[o + 12]), CString(d, strings + U32(d, o)));
  }

  /** elfsym_get_symbol: every index below the number of symbols is read inside the image, and the
      name is the string its entry points to in the linked string table. */
  method GetSymbol(d: Image, r: Symbols, index: nat) returns (symbol: Symbol)
    requires WellFormed(d) && ReadHeader(d).shnum > 0 && Loaded(d, ReadHeader(d), r) && index < r.count
    ensures
      var h := ReadHeader(d);
      var o := SymbolOffset(h, SectionAt(d, h, r.section), index);
      o + SymSize(h.is64) <= |d| && SymbolIs(d, h.is64, o, r.strings, symbol)
  {
    var h := ReadHeader(d);
    SymbolInside(d, r, index);
    var o := r.offset + index * SymSize(h.is64);
    if h.is64 {
      symbol := Symbol64(d, o, r.strings);
    } else {
      symbol := Symbol32(d, o, r.strings);
    }
  }
}
