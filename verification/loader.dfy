/**
  Program loading on reset: src/device/mpu/loader/loader.c over the memory of module Mpu.
  `width` is the address width; the memory configuration lists areas in bytes.
 */
module Loader {
  import opened Numbers
  import opened ElfCheck
  import opened ElfImage
  import opened Mpu

  datatype Area = Area(start: nat, bytes: nat, isMalloc: bool)

  /** MemoryAddressMapType */
  datatype MemoryMap = MemoryMap(rom: seq<Area>, ram: seq<Area>, dev: seq<Area>)

  predicate InArea(area: Area, a: nat) {
    area.start <= a < area.start + area.bytes
  }

  /** memory_region_covers: no sum, so nothing can wrap. */
  predicate AreaCovers(area: Area, addr: nat, size: nat) {
    addr >= area.start && addr - area.start <= area.bytes && size <= area.bytes - (addr - area.start)
  }

  lemma AreaCoversIff(area: Area, addr: nat, size: nat)
    ensures AreaCovers(area, addr, size) <==> area.start <= addr && addr + size <= area.start + area.bytes
  {
  }

  /** The areas with contiguous memory behind them. */
  function WithMemory(memap: MemoryMap): (areas: seq<Area>) {
    memap.rom + Contiguous(memap.ram) + memap.dev
  }

  /** The areas that elf_reload clears. */
  function Cleared(memap: MemoryMap): (areas: seq<Area>) {
    memap.rom + Contiguous(memap.ram)
  }

  function Contiguous(ram: seq<Area>): (areas: seq<Area>)
    ensures forall area :: area in areas <==> area in ram && !area.isMalloc
  {
    if ram == [] then [] else (if ram[0].isMalloc then [] else [ram[0]]) + Contiguous(ram[1..])
  }

  /** memory_map_covers */
  predicate MapCovers(memap: MemoryMap, addr: nat, size: nat) {
    exists area :: area in WithMemory(memap) && AreaCovers(area, addr, size)
  }

  // ---- The memory that elf_load has set up ----

  /** The byte in the memory at an address, below permissions and device operations. */
  function Peek(map_: Map, width: nat, a: nat): Load
    requires MapOk(map_)
  {
    match Search(map_, Modulus(width), a, 1)
    case Miss => Fault
    case Found(i) =>
      assert RegionOk(map_.regions[i]);
      Behind(map_.regions[i], Modulus(width), a)
  }

  /** mpu_get_pointer succeeds: a region is found, and its operations have a get_pointer. */
  predicate Reaches(map_: Map, m: nat, a: nat)
    requires 0 < m
  {
    match Search(map_, m, a, 1)
    case Miss => false
    case Found(i) => map_.regions[i].defaultOps || map_.regions[i].ownPointer
  }

  /** The area has region `i` to itself; it may end at the very top of the address space. */
  ghost predicate HasRegion(map_: Map, width: nat, area: Area, i: int) {
    && 0 <= i < |map_.regions| && 0 < area.bytes && area.start + area.bytes <= Modulus(width)
    && map_.regions[i].start == area.start && map_.regions[i].size == area.bytes
    && Plain(map_.regions[i], Modulus(width)) && map_.regions[i].data.Backed? && RegionOk(map_.regions[i])
    && Alone(map_, Modulus(width), area, i)
  }

  ghost predicate Alone(map_: Map, m: nat, area: Area, i: int)
    requires 0 < m
  {
    forall a: nat, k {:trigger Covers(map_.regions[k], m, a, 1)} ::
      InArea(area, a) && 0 <= k < |map_.regions| && k != i ==> !Covers(map_.regions[k], m, a, 1)
  }

  /** `plain`: the region is ordinary memory, not an external device with its own operations. */
  ghost predicate Mapped(map_: Map, width: nat, area: Area, plain: bool) {
    exists i :: HasRegion(map_, width, area, i) && (plain ==> map_.regions[i].defaultOps)
  }

  ghost predicate AllMapped(map_: Map, width: nat, areas: seq<Area>, plain: bool) {
    areas == [] || (Mapped(map_, width, areas[0], plain) && AllMapped(map_, width, areas[1..], plain))
  }

  lemma {:induction false} EachIsMapped(map_: Map, width: nat, areas: seq<Area>, plain: bool, area: Area)
    requires AllMapped(map_, width, areas, plain) && area in areas
    ensures Mapped(map_, width, area, plain)
  {
    if area != areas[0] {
      EachIsMapped(map_, width, areas[1..], plain, area);
    }
  }

  /** What elf_load leaves for areas that do not overlap: each has its own region, ROM and RAM with plain
      operations. */
  ghost predicate Ready(map_: Map, width: nat, memap: MemoryMap) {
    && MapOk(map_)
    && AllMapped(map_, width, WithMemory(memap), false) && AllMapped(map_, width, Cleared(memap), true)
  }

  predicate AtTop(area: Area, width: nat) {
    area.start + area.bytes == Modulus(width)
  }

  /** A search for an address of the area finds its region, whatever the cache holds, unless the area ends at the
      top: then the end wraps to zero and nothing is found. */
  lemma AreaSearch(map_: Map, width: nat, area: Area, i: nat, a: nat, previous: int)
    requires HasRegion(map_, width, area, i) && InArea(area, a)
    ensures Search(map_, Modulus(width), a, 1) == if AtTop(area, width) then Miss else Found(i)
    ensures CachedSearch(map_, Modulus(width), previous, a, 1) == Search(map_, Modulus(width), a, 1)
  {
    var m := Modulus(width);
    CoversIffInside(map_.regions[i], width, a, 1);
    if !AtTop(area, width) {
      FirstCoverIsFirst(map_.regions, m, a, 1, 0, i);
      assert FirstCover(map_.regions, m, a, 1, 0) == i;
    }
  }

  /** A pointer into an area exists exactly when the area does not end at the top and its operations give one. */
  lemma AreaReachedIff(map_: Map, width: nat, area: Area, i: nat, a: nat)
    requires HasRegion(map_, width, area, i) && InArea(area, a)
    ensures Reaches(map_, Modulus(width), a) <==>
            !AtTop(area, width) && (map_.regions[i].defaultOps || map_.regions[i].ownPointer)
  {
    AreaSearch(map_, width, area, i, a, -1);
  }

  /** In ROM and RAM the memory is what 8-bit bus reads return. */
  lemma PeekIsBusRead(map_: Map, width: nat, area: Area, i: nat, a: nat, allowed: Permission, previous: int)
    requires MapOk(map_) && HasRegion(map_, width, area, i) && map_.regions[i].defaultOps && InArea(area, a)
    requires allowed(map_.regions[i].kind, false, a, 1)
    ensures BusRead(map_, Modulus(width), allowed, previous, a) == Peek(map_, width, a)
  {
    AreaSearch(map_, width, area, i, a, previous);
  }

  // ---- What a reset leaves at each address ----

  predicate InSegment(p: Program, a: nat) {
    p.paddr <= a < p.paddr + p.memsz
  }

  /** A segment that load_segment copies; the others are passed over. */
  predicate Loads(memap: MemoryMap, p: Program) {
    p.type_ == PT_LOAD && p.filesz <= p.memsz && MapCovers(memap, p.paddr, p.memsz)
  }

  /** The areas a segment may be copied to, in true integers; PT_LOAD is 1. */
  lemma LoadsIff(memap: MemoryMap, p: Program)
    ensures Loads(memap, p) <==>
            && p.type_ == 1 && p.filesz <= p.memsz
            && exists area ::
                 && (area in memap.rom || (area in memap.ram && !area.isMalloc) || area in memap.dev)
                 && area.start <= p.paddr && p.paddr + p.memsz <= area.start + area.bytes
  {
    assert forall area :: area in WithMemory(memap) <==>
                          area in memap.rom || (area in memap.ram && !area.isMalloc) || area in memap.dev;
  }

  /** The file contents of a segment, then zeros up to its memory size. */
  function SegmentBytes(d: Image, p: Program): (bytes: seq<byte>)
    requires Inside(d, p.offset, p.filesz) && p.filesz <= p.memsz
    ensures |bytes| == p.memsz
    ensures forall k :: 0 <= k < p.memsz ==> bytes[k] == if k < p.filesz then d[p.offset + k] else 0
  {
    d[p.offset..p.offset + p.filesz] + Zeros(p.memsz - p.filesz)
  }

  function Zeros(n: nat): (bytes: seq<byte>)
    ensures |bytes| == n && forall k :: 0 <= k < n ==> bytes[k] == 0
  {
    seq(n, _ => 0)
  }

  ghost predicate SegmentsOk(d: Image, programs: seq<Program>) {
    forall i :: 0 <= i < |programs| ==> ProgramOk(d, programs[i])
  }

  /** The byte at `a` after the first `n` program headers are loaded over `before`. */
  ghost function Loading(d: Image, memap: MemoryMap, programs: seq<Program>, n: nat, a: nat, before: Load): Load
    requires SegmentsOk(d, programs) && n <= |programs|
  {
    if n == 0 then before
    else
      var p := programs[n - 1];
      assert ProgramOk(d, p);
      if Loads(memap, p) && InSegment(p, a)
      then Loaded(if a - p.paddr < p.filesz then d[p.offset + (a - p.paddr)] else 0)
      else Loading(d, memap, programs, n - 1, a, before)
  }

  predicate IsCleared(area: Area, ram: bool) {
    !(ram && area.isMalloc)
  }

  /** The byte at `a` after the first `n` areas of a list are cleared. */
  function Clearing(areas: seq<Area>, ram: bool, n: nat, a: nat, before: Load): Load
    requires n <= |areas|
  {
    if n == 0 then before
    else if IsCleared(areas[n - 1], ram) && InArea(areas[n - 1], a) then Loaded(0)
    else Clearing(areas, ram, n - 1, a, before)
  }

  /** The byte at `a` after elf_reload. */
  ghost function Reset(d: Image, memap: MemoryMap, programs: seq<Program>, a: nat, before: Load): Load
    requires SegmentsOk(d, programs)
  {
    var noRom := Clearing(memap.rom, false, |memap.rom|, a, before);
    Loading(d, memap, programs, |programs|, a, Clearing(memap.ram, true, |memap.ram|, a, noRom))
  }

  ghost predicate InCleared(memap: MemoryMap, a: nat) {
    exists area :: area in Cleared(memap) && InArea(area, a)
  }

  lemma {:induction false} ClearingIff(areas: seq<Area>, ram: bool, n: nat, a: nat, before: Load)
    requires n <= |areas|
    ensures Clearing(areas, ram, n, a, before) ==
            if exists k :: 0 <= k < n && IsCleared(areas[k], ram) && InArea(areas[k], a) then Loaded(0) else before
  {
    if n > 0 && !(IsCleared(areas[n - 1], ram) && InArea(areas[n - 1], a)) {
      ClearingIff(areas, ram, n - 1, a, before);
    }
  }

  /** The last loaded segment that holds an address decides its byte: of the file contents, or zero behind them. */
  lemma {:induction false} LastSegmentWins(d: Image, memap: MemoryMap, programs: seq<Program>, i: nat, n: nat, a: nat,
                                           before: Load)
    requires SegmentsOk(d, programs) && i < n <= |programs| && Loads(memap, programs[i]) && InSegment(programs[i], a)
    requires forall j :: i < j < n ==> !(Loads(memap, programs[j]) && InSegment(programs[j], a))
    ensures ProgramOk(d, programs[i])
    ensures
      var p := programs[i];
      Loading(d, memap, programs, n, a, before) ==
      Loaded(if a - p.paddr < p.filesz then d[p.offset + (a - p.paddr)] else 0)
  {
    if i < n - 1 {
      LastSegmentWins(d, memap, programs, i, n - 1, a, before);
    }
  }

  ghost predicate InLoaded(memap: MemoryMap, programs: seq<Program>, n: nat, a: nat)
    requires n <= |programs|
  {
    exists i :: 0 <= i < n && Loads(memap, programs[i]) && InSegment(programs[i], a)
  }

  /** What was there before matters exactly where no loaded segment lies. */
  lemma {:induction false} LoadingForgets(d: Image, memap: MemoryMap, programs: seq<Program>, n: nat, a: nat, x: Load,
                                          y: Load)
    requires SegmentsOk(d, programs) && n <= |programs|
    ensures InLoaded(memap, programs, n, a) ==>
              Loading(d, memap, programs, n, a, x) == Loading(d, memap, programs, n, a, y)
    ensures !InLoaded(memap, programs, n, a) ==> Loading(d, memap, programs, n, a, x) == x
  {
    if n > 0 && !(Loads(memap, programs[n - 1]) && InSegment(programs[n - 1], a)) {
      LoadingForgets(d, memap, programs, n - 1, a, x, y);
    }
  }

  /** A reset depends on the history of a byte exactly where the byte is neither in a ROM or
      contiguous RAM area nor in a loaded segment; there it keeps what it finds. */
  lemma ResetForgetsIff(d: Image, memap: MemoryMap, programs: seq<Program>, a: nat, x: Load, y: Load)
    requires SegmentsOk(d, programs) && x != y
    ensures Reset(d, memap, programs, a, x) == Reset(d, memap, programs, a, y) <==>
            InCleared(memap, a) || InLoaded(memap, programs, |programs|, a)
    ensures InCleared(memap, a) || InLoaded(memap, programs, |programs|, a) || Reset(d, memap, programs, a, x) == x
  {
    ClearedIff(memap, a, x);
    ClearedIff(memap, a, y);
    var n := |programs|;
    LoadingForgets(d, memap, programs, n, a, ClearedByte(memap, a, x), ClearedByte(memap, a, y));
    LoadingForgets(d, memap, programs, n, a, ClearedByte(memap, a, y), ClearedByte(memap, a, x));
  }

  /** Segment `p` is loaded over address `a`. */
  predicate LoadsAt(memap: MemoryMap, p: Program, a: nat) {
    Loads(memap, p) && InSegment(p, a)
  }

  /** What a complete reset leaves at `a`, where `was` lay before: the byte of the last segment loaded over it, file
      contents or zero fill; without one, zero in ROM and contiguous RAM and the old byte elsewhere. */
  ghost predicate ResetAt(d: Image, memap: MemoryMap, programs: seq<Program>, a: nat, was: Load, now: Load)
    requires SegmentsOk(d, programs)
  {
    && (forall i :: 0 <= i < |programs| && LoadsAt(memap, programs[i], a)
                    && (forall j :: i < j < |programs| ==> !LoadsAt(memap, programs[j], a)) ==>
          assert ProgramOk(d, programs[i]);
          var p := programs[i];
          now == Loaded(if a - p.paddr < p.filesz then d[p.offset + (a - p.paddr)] else 0))
    && ((forall i :: 0 <= i < |programs| ==> !LoadsAt(memap, programs[i], a)) ==>
          now == if InCleared(memap, a) then Loaded(0) else was)
  }

  lemma ResetIsResetAt(d: Image, memap: MemoryMap, programs: seq<Program>, a: nat, was: Load)
    requires SegmentsOk(d, programs)
    ensures ResetAt(d, memap, programs, a, was, Reset(d, memap, programs, a, was))
  {
    var n, cleared := |programs|, ClearedByte(memap, a, was);
    ClearedIff(memap, a, was);
    LoadingForgets(d, memap, programs, n, a, cleared, cleared);
    forall i | 0 <= i < n && LoadsAt(memap, programs[i], a)
               && (forall j :: i < j < n ==> !LoadsAt(memap, programs[j], a))
      ensures ProgramOk(d, programs[i])
      ensures
        var p := programs[i];
        Loading(d, memap, programs, n, a, cleared) ==
        Loaded(if a - p.paddr < p.filesz then d[p.offset + (a - p.paddr)] else 0)
    {
      LastSegmentWins(d, memap, programs, i, n, a, cleared);
    }
  }

  function ClearedByte(memap: MemoryMap, a: nat, before: Load): Load {
    Clearing(memap.ram, true, |memap.ram|, a, Clearing(memap.rom, false, |memap.rom|, a, before))
  }

  lemma ClearedIff(memap: MemoryMap, a: nat, before: Load)
    ensures ClearedByte(memap, a, before) == if InCleared(memap, a) then Loaded(0) else before
  {
    ClearingIff(memap.rom, false, |memap.rom|, a, before);
    var noRom := Clearing(memap.rom, false, |memap.rom|, a, before);
    ClearingIff(memap.ram, true, |memap.ram|, a, noRom);
    if InCleared(memap, a) {
      var area :| area in Cleared(memap) && InArea(area, a);
      assert area in memap.rom || area in Contiguous(memap.ram);
    }
    if k :| 0 <= k < |memap.rom| && InArea(memap.rom[k], a) {
      assert memap.rom[k] in Cleared(memap);
    }
    if k :| 0 <= k < |memap.ram| && IsCleared(memap.ram[k], true) && InArea(memap.ram[k], a) {
      assert memap.ram[k] in Contiguous(memap.ram) && memap.ram[k] in Cleared(memap);
    }
  }

  /** Startup loads over whatever the new memory holds (calloc for RAM, plain malloc for ROM).  A
      reset gives back the byte startup gave exactly where a segment is loaded or that memory was
      zero. */
  lemma ResetIsStartupIff(d: Image, memap: MemoryMap, programs: seq<Program>, a: nat, fresh_: Load, now: Load)
    requires SegmentsOk(d, programs) && InCleared(memap, a)
    ensures Reset(d, memap, programs, a, now) == Loading(d, memap, programs, |programs|, a, fresh_) <==>
            InLoaded(memap, programs, |programs|, a) || fresh_ == Loaded(0)
  {
    ClearedIff(memap, a, now);
    LoadingForgets(d, memap, programs, |programs|, a, Loaded(0), fresh_);
    LoadingForgets(d, memap, programs, |programs|, a, fresh_, Loaded(0));
  }

  /** A byte of ROM that no segment covers: malloc happened to leave 1 there at startup, and a reset leaves 0. */
  lemma ResetChangesRomByte(d: Image, now: Load)
    ensures
      var memap := MemoryMap([Area(0, 8, false)], [], []);
      && InCleared(memap, 0) && Loading(d, memap, [], 0, 0, Loaded(1)) == Loaded(1)
      && Reset(d, memap, [], 0, now) == Loaded(0)
  {
    var memap := MemoryMap([Area(0, 8, false)], [], []);
    assert Area(0, 8, false) in Cleared(memap);
  }

  // ---- Writing memory ----

  /** `after` is `map_` with `buffer` written at `addr`, inside the area of region `i`. */
  ghost predicate Stores(map_: Map, after: Map, width: nat, area: Area, i: nat, addr: nat, buffer: seq<byte>) {
    && HasRegion(map_, width, area, i) && area.start <= addr && addr + |buffer| <= area.start + area.bytes
    && after == WriteWindow(map_, Window(i, addr - area.start), buffer)
  }

  lemma StoreKeepsMap(map_: Map, after: Map, width: nat, area: Area, i: nat, addr: nat, buffer: seq<byte>)
    requires MapOk(map_) && Stores(map_, after, width, area, i, addr, buffer)
    ensures MapOk(after) && SameLayout(map_, after)
  {
    forall k | 0 <= k < |after.regions|
      ensures RegionOk(after.regions[k])
    {
      assert RegionOk(map_.regions[k]);
    }
  }

  /** Which regions cover what, and which give pointers, does not depend on the bytes. */
  lemma LayoutKeepsRegion(map_: Map, after: Map, width: nat, area: Area, i: int)
    requires SameLayout(map_, after) && MapOk(after) && HasRegion(map_, width, area, i)
    ensures HasRegion(after, width, area, i) && after.regions[i].defaultOps == map_.regions[i].defaultOps
  {
    var m := Modulus(width);
    assert RegionOk(after.regions[i]);
    forall a: nat, k {:trigger Covers(after.regions[k], m, a, 1)} |
      InArea(area, a) && 0 <= k < |after.regions| && k != i
      ensures !Covers(after.regions[k], m, a, 1)
    {
      CoversIgnoresBytes(map_.regions[k], after.regions[k].data, m, a, 1);
    }
  }

  lemma LayoutKeepsMapped(map_: Map, after: Map, width: nat, area: Area, plain: bool)
    requires SameLayout(map_, after) && MapOk(after) && Mapped(map_, width, area, plain)
    ensures Mapped(after, width, area, plain)
  {
    var i :| HasRegion(map_, width, area, i) && (plain ==> map_.regions[i].defaultOps);
    LayoutKeepsRegion(map_, after, width, area, i);
  }

  lemma {:induction false} LayoutKeepsAllMapped(map_: Map, after: Map, width: nat, areas: seq<Area>, plain: bool)
    requires SameLayout(map_, after) && MapOk(after) && AllMapped(map_, width, areas, plain)
    ensures AllMapped(after, width, areas, plain)
  {
    if areas != [] {
      LayoutKeepsMapped(map_, after, width, areas[0], plain);
      LayoutKeepsAllMapped(map_, after, width, areas[1..], plain);
    }
  }

  lemma LayoutKeepsReady(map_: Map, after: Map, width: nat, memap: MemoryMap)
    requires SameLayout(map_, after) && MapOk(after) && Ready(map_, width, memap)
    ensures Ready(after, width, memap)
  {
    LayoutKeepsAllMapped(map_, after, width, WithMemory(memap), false);
    LayoutKeepsAllMapped(map_, after, width, Cleared(memap), true);
  }

  lemma ReachesIgnoresBytes(map_: Map, after: Map, m: nat, a: nat)
    requires 0 < m && SameLayout(map_, after)
    ensures Reaches(after, m, a) == Reaches(map_, m, a)
  {
    SearchIgnoresBytes(map_, after, m, -1, a, 1);
  }

  lemma LayoutIsTransitive(a: Map, b: Map, c: Map)
    requires SameLayout(a, b) && SameLayout(b, c)
    ensures SameLayout(a, c)
  {
  }

  /** Every byte of `after` follows from `before` by writing `buffer` at `addr`. */
  ghost predicate Wrote(before: Map, after: Map, width: nat, addr: nat, buffer: seq<byte>) {
    && MapOk(before) && MapOk(after)
    && forall a: nat :: a < Modulus(width) ==>
         Peek(after, width, a) ==
         if addr <= a < addr + |buffer| then Loaded(buffer[a - addr]) else Peek(before, width, a)
  }

  lemma StoreEffect(map_: Map, after: Map, width: nat, area: Area, i: nat, addr: nat, buffer: seq<byte>, a: nat)
    requires MapOk(map_) && MapOk(after) && SameLayout(map_, after) && Stores(map_, after, width, area, i, addr, buffer)
    requires a < Modulus(width) && !AtTop(area, width)
    ensures Peek(after, width, a) ==
            if addr <= a < addr + |buffer| then Loaded(buffer[a - addr]) else Peek(map_, width, a)
  {
    SearchIgnoresBytes(map_, after, Modulus(width), -1, a, 1);
    if InArea(area, a) {
      AreaSearch(map_, width, area, i, a, -1);
    }
    if Search(map_, Modulus(width), a, 1) == Found(i) {
      SplicedBehind(map_.regions[i], width, addr - area.start, buffer, a);
    }
  }

  /** A write inside an area changes exactly the bytes of its range. */
  lemma StoreIsWrote(map_: Map, after: Map, width: nat, area: Area, i: nat, addr: nat, buffer: seq<byte>)
    requires MapOk(map_) && MapOk(after) && SameLayout(map_, after) && Stores(map_, after, width, area, i, addr, buffer)
    requires !AtTop(area, width)
    ensures Wrote(map_, after, width, addr, buffer)
  {
    forall a: nat | a < Modulus(width)
      ensures Peek(after, width, a) ==
              if addr <= a < addr + |buffer| then Loaded(buffer[a - addr]) else Peek(map_, width, a)
    {
      StoreEffect(map_, after, width, area, i, addr, buffer, a);
    }
  }

  /** mpu_get_pointer, then memcpy or memset through the pointer, inside one area: it fails exactly when there is no
      pointer, and then changes nothing. */
  method Store(mpu: AddressMap, ghost memap: MemoryMap, ghost area: Area, addr: nat, buffer: seq<byte>)
    returns (ok: bool)
    requires Ready(mpu.map_, mpu.width, memap) && area in WithMemory(memap)
    requires AreaCovers(area, addr, |buffer|) && buffer != []
    modifies mpu
    ensures Ready(mpu.map_, mpu.width, memap) && SameLayout(old(mpu.map_), mpu.map_)
    ensures ok == Reaches(old(mpu.map_), Modulus(mpu.width), addr)
    ensures if ok then Wrote(old(mpu.map_), mpu.map_, mpu.width, addr, buffer) else mpu.map_ == old(mpu.map_)
  {
    ghost var before := mpu.map_;
    EachIsMapped(before, mpu.width, WithMemory(memap), false, area);
    ghost var i :| HasRegion(before, mpu.width, area, i);
    AreaSearch(before, mpu.width, area, i, addr, mpu.previousWrite);
    var hit := mpu.SearchRegion(false, addr, 1);
    if hit.Miss? {
      return false;
    }
    var r := mpu.map_.regions[hit.index];
    if !(r.defaultOps || r.ownPointer) {
      return false;
    }
    mpu.map_ := WriteWindow(mpu.map_, Window(hit.index, addr - r.start), buffer);
    StoreKeepsMap(before, mpu.map_, mpu.width, area, i, addr, buffer);
    LayoutKeepsReady(before, mpu.map_, mpu.width, memap);
    StoreIsWrote(before, mpu.map_, mpu.width, area, i, addr, buffer);
    ok := true;
  }

  // ---- Clearing ----

  /** The first area, from `i` on, that the clearing loop cannot get a pointer to; their number if there is none. */
  function StuckArea(map_: Map, m: nat, areas: seq<Area>, ram: bool, i: nat): (n: nat)
    requires 0 < m && i <= |areas|
    ensures i <= n <= |areas| && (n < |areas| ==> IsStuckArea(map_, m, areas[n], ram))
    ensures forall k :: i <= k < n ==> !IsStuckArea(map_, m, areas[k], ram)
    decreases |areas| - i
  {
    if i == |areas| || IsStuckArea(map_, m, areas[i], ram) then i
    else StuckArea(map_, m, areas, ram, i + 1)
  }

  /** What lies at each address after clearing `n` areas of a list. */
  ghost predicate ClearedSoFar(before: Map, after: Map, width: nat, areas: seq<Area>, ram: bool, n: nat) {
    && MapOk(before) && MapOk(after) && n <= |areas|
    && forall a: nat :: a < Modulus(width) ==>
      Peek(after, width, a) == Clearing(areas, ram, n, a, Peek(before, width, a))
  }

  lemma ClearOneMore(before: Map, now: Map, after: Map, width: nat, areas: seq<Area>, ram: bool, n: nat)
    requires ClearedSoFar(before, now, width, areas, ram, n) && n < |areas|
    requires if IsCleared(areas[n], ram) then Wrote(now, after, width, areas[n].start, Zeros(areas[n].bytes))
             else after == now
    ensures ClearedSoFar(before, after, width, areas, ram, n + 1)
  {
  }

  /** The clearing loop is asked to clear an area, but gets no pointer. */
  predicate IsStuckArea(map_: Map, m: nat, area: Area, ram: bool)
    requires 0 < m
  {
    IsCleared(area, ram) && !Reaches(map_, m, area.start)
  }

  /** One turn of a clearing loop. */
  method ClearArea(mpu: AddressMap, ghost memap: MemoryMap, area: Area, ram: bool,
                   ghost before: Map, ghost areas: seq<Area>, ghost n: nat) returns (ok: bool)
    requires Ready(mpu.map_, mpu.width, memap) && n < |areas| && area == areas[n]
    requires IsCleared(area, ram) ==> area in WithMemory(memap)
    requires ClearedSoFar(before, mpu.map_, mpu.width, areas, ram, n) && SameLayout(before, mpu.map_)
    modifies mpu
    ensures Ready(mpu.map_, mpu.width, memap) && SameLayout(before, mpu.map_)
    ensures ok <==> !IsStuckArea(before, Modulus(mpu.width), area, ram)
    ensures ClearedSoFar(before, mpu.map_, mpu.width, areas, ram, if ok then n + 1 else n)
  {
    ghost var now := mpu.map_;
    ReachesIgnoresBytes(before, now, Modulus(mpu.width), area.start);
    ok := true;
    if !(ram && area.isMalloc) {
      EachIsMapped(now, mpu.width, WithMemory(memap), false, area);
      ok := Store(mpu, memap, area, area.start, Zeros(area.bytes));
      LayoutIsTransitive(before, now, mpu.map_);
    }
    if ok {
      ClearOneMore(before, now, mpu.map_, mpu.width, areas, ram, n);
    }
  }

  ghost predicate HaveMemory(areas: seq<Area>, ram: bool, memap: MemoryMap) {
    forall area :: area in areas && IsCleared(area, ram) ==> area in WithMemory(memap)
  }

  /** A clearing loop before turn `i`, or stopped at it. */
  ghost predicate ClearingAt(before: Map, now: Map, width: nat, areas: seq<Area>, ram: bool, i: nat, ok: bool) {
    && SameLayout(before, now) && ClearedSoFar(before, now, width, areas, ram, i) && (ok || i < |areas|)
    && StuckArea(before, Modulus(width), areas, ram, 0) ==
       if ok then StuckArea(before, Modulus(width), areas, ram, i) else i
  }

  lemma ClearingStarts(map_: Map, width: nat, areas: seq<Area>, ram: bool)
    requires MapOk(map_)
    ensures ClearingAt(map_, map_, width, areas, ram, 0, true)
  {
  }

  /** One turn, with its place in the loop. */
  method ClearNext(mpu: AddressMap, ghost memap: MemoryMap, areas: seq<Area>, ram: bool, i: nat, ghost before: Map)
    returns (ok: bool)
    requires Ready(before, mpu.width, memap) && HaveMemory(areas, ram, memap)
    requires i < |areas| && ClearingAt(before, mpu.map_, mpu.width, areas, ram, i, true)
    modifies mpu
    ensures ok ==> ClearingAt(before, mpu.map_, mpu.width, areas, ram, i + 1, true)
    ensures !ok ==> ClearingAt(before, mpu.map_, mpu.width, areas, ram, i, false)
  {
    LayoutKeepsReady(before, mpu.map_, mpu.width, memap);
    assert areas[i] in areas;
    ok := ClearArea(mpu, memap, areas[i], ram, before, areas, i);
  }

  /** One of the two clearing loops of elf_reload. */
  method ClearLoop(mpu: AddressMap, ghost memap: MemoryMap, areas: seq<Area>, ram: bool) returns (i: nat, ok: bool)
    requires Ready(mpu.map_, mpu.width, memap) && HaveMemory(areas, ram, memap)
    modifies mpu
    ensures ClearingAt(old(mpu.map_), mpu.map_, mpu.width, areas, ram, i, ok) && (ok ==> i == |areas|)
  {
    ghost var before := mpu.map_;
    i := 0;
    ClearingStarts(before, mpu.width, areas, ram);
    while i < |areas|
      invariant i <= |areas| && ClearingAt(before, mpu.map_, mpu.width, areas, ram, i, true)
    {
      ok := ClearNext(mpu, memap, areas, ram, i, before);
      if !ok {
        return;
      }
      i := i + 1;
    }
    ok := true;
  }

  /** The ROM areas, or the RAM areas but MALLOC ones, up to the first that cannot be reached. */
  method ClearAreas(mpu: AddressMap, ghost memap: MemoryMap, areas: seq<Area>, ram: bool) returns (ok: bool)
    requires Ready(mpu.map_, mpu.width, memap) && HaveMemory(areas, ram, memap)
    modifies mpu
    ensures Ready(mpu.map_, mpu.width, memap) && SameLayout(old(mpu.map_), mpu.map_)
    ensures
      var n := StuckArea(old(mpu.map_), Modulus(mpu.width), areas, ram, 0);
      ClearedSoFar(old(mpu.map_), mpu.map_, mpu.width, areas, ram, n) && (ok <==> n == |areas|)
  {
    var i;
    i, ok := ClearLoop(mpu, memap, areas, ram);
    LayoutKeepsReady(old(mpu.map_), mpu.map_, mpu.width, memap);
  }

  // ---- Loading ----

  /** memory_map_covers, one list of areas; MALLOC areas are passed over in the RAM list. */
  method SomeCovers(areas: seq<Area>, ram: bool, addr: nat, size: nat) returns (found: bool)
    ensures found <==> exists area :: area in areas && IsCleared(area, ram) && AreaCovers(area, addr, size)
  {
    var i := 0;
    while i < |areas|
      invariant i <= |areas|
      invariant forall k :: 0 <= k < i ==> !(IsCleared(areas[k], ram) && AreaCovers(areas[k], addr, size))
    {
      if !(ram && areas[i].isMalloc) && AreaCovers(areas[i], addr, size) {
        return true;
      }
      i := i + 1;
    }
    return false;
  }

  method MemoryMapCovers(memap: MemoryMap, addr: nat, size: nat) returns (found: bool)
    ensures found <==> MapCovers(memap, addr, size)
  {
    found := SomeCovers(memap.rom, false, addr, size);
    if found {
      return;
    }
    found := SomeCovers(memap.ram, true, addr, size);
    if found {
      return;
    }
    found := SomeCovers(memap.dev, false, addr, size);
  }

  datatype Status = Done | NoEntry | Invalid

  /** elf_load has refused images with a segment beyond the address bus, so the casts to the address
      type in load_segment lose nothing. */
  predicate OnBus(p: Program, m: nat) {
    p.paddr < m && p.memsz < m
  }

  /** load_segment is asked to copy, but gets no pointer. */
  predicate IsStuck(map_: Map, m: nat, memap: MemoryMap, p: Program)
    requires 0 < m
  {
    Loads(memap, p) && 0 < p.memsz && !Reaches(map_, m, p.paddr)
  }

  /** load_segment */
  method LoadSegment(mpu: AddressMap, d: Image, p: Program, memap: MemoryMap) returns (status: Status)
    requires Ready(mpu.map_, mpu.width, memap) && p.type_ == PT_LOAD && Inside(d, p.offset, p.filesz)
    requires OnBus(p, Modulus(mpu.width))
    modifies mpu
    ensures Ready(mpu.map_, mpu.width, memap) && SameLayout(old(mpu.map_), mpu.map_)
    ensures status == if !Loads(memap, p) then NoEntry
                      else if IsStuck(old(mpu.map_), Modulus(mpu.width), memap, p) then Invalid else Done
    ensures if status == Done then Wrote(old(mpu.map_), mpu.map_, mpu.width, p.paddr, SegmentBytes(d, p))
            else mpu.map_ == old(mpu.map_)
    ensures status == Done ==>
              forall a: nat :: a < Modulus(mpu.width) ==>
                Peek(mpu.map_, mpu.width, a) ==
                if !InSegment(p, a) then Peek(old(mpu.map_), mpu.width, a)
                else Loaded(if a - p.paddr < p.filesz then d[p.offset + (a - p.paddr)] else 0)
  {
    if p.memsz < p.filesz {
      return NoEntry;
    }
    var covered := MemoryMapCovers(memap, p.paddr, p.memsz);
    if !covered {
      return NoEntry;
    }
    if p.memsz == 0 {
      return Done;
    }
    ghost var area :| area in WithMemory(memap) && AreaCovers(area, p.paddr, p.memsz);
    var stored := Store(mpu, memap, area, p.paddr, SegmentBytes(d, p));
    status := if stored then Done else Invalid;
  }

  /** The first program header, from `i` on, whose segment stops the loading loop; their number if there is none. */
  function StuckProgram(map_: Map, m: nat, memap: MemoryMap, programs: seq<Program>, i: nat): (n: nat)
    requires 0 < m && i <= |programs|
    ensures i <= n <= |programs| && (n < |programs| ==> IsStuck(map_, m, memap, programs[n]))
    ensures forall k :: i <= k < n ==> !IsStuck(map_, m, memap, programs[k])
    decreases |programs| - i
  {
    if i == |programs| || IsStuck(map_, m, memap, programs[i]) then i
    else StuckProgram(map_, m, memap, programs, i + 1)
  }

  ghost predicate LoadedSoFar(before: Map, after: Map, width: nat, d: Image, memap: MemoryMap, programs: seq<Program>,
                              n: nat) {
    && MapOk(before) && MapOk(after) && SegmentsOk(d, programs) && n <= |programs|
    && forall a: nat :: a < Modulus(width) ==>
         Peek(after, width, a) == Loading(d, memap, programs, n, a, Peek(before, width, a))
  }

  lemma LoadOneMore(before: Map, now: Map, after: Map, width: nat, d: Image, memap: MemoryMap, programs: seq<Program>,
                    n: nat)
    requires LoadedSoFar(before, now, width, d, memap, programs, n) && n < |programs| && ProgramOk(d, programs[n])
    requires if Loads(memap, programs[n]) then Wrote(now, after, width, programs[n].paddr, SegmentBytes(d, programs[n]))
             else after == now
    ensures LoadedSoFar(before, after, width, d, memap, programs, n + 1)
  {
  }

  /** One turn of the loading loop of elf_reload. */
  method LoadProgram(mpu: AddressMap, d: Image, p: Program, memap: MemoryMap,
                     ghost before: Map, ghost programs: seq<Program>, ghost n: nat) returns (ok: bool)
    requires Ready(mpu.map_, mpu.width, memap) && n < |programs| && p == programs[n] && ProgramOk(d, p)
    requires LoadedSoFar(before, mpu.map_, mpu.width, d, memap, programs, n) && SameLayout(before, mpu.map_)
    requires p.type_ == PT_LOAD ==> OnBus(p, Modulus(mpu.width))
    modifies mpu
    ensures Ready(mpu.map_, mpu.width, memap) && SameLayout(before, mpu.map_)
    ensures ok <==> !IsStuck(before, Modulus(mpu.width), memap, p)
    ensures LoadedSoFar(before, mpu.map_, mpu.width, d, memap, programs, if ok then n + 1 else n)
  {
    ghost var now := mpu.map_;
    ReachesIgnoresBytes(before, now, Modulus(mpu.width), p.paddr);
    ok := true;
    if p.type_ == PT_LOAD {
      var status := LoadSegment(mpu, d, p, memap);
      LayoutIsTransitive(before, now, mpu.map_);
      ok := status != Invalid;
    }
    if ok {
      LoadOneMore(before, now, mpu.map_, mpu.width, d, memap, programs, n);
    }
  }

  ghost predicate AllOnBus(programs: seq<Program>, m: nat) {
    forall i :: 0 <= i < |programs| && programs[i].type_ == PT_LOAD ==> OnBus(programs[i], m)
  }

  /** The loading loop before turn `i`, or stopped at it. */
  ghost predicate LoadingAt(before: Map, now: Map, width: nat, d: Image, memap: MemoryMap, programs: seq<Program>,
                            i: nat, ok: bool) {
    && SameLayout(before, now) && LoadedSoFar(before, now, width, d, memap, programs, i) && (ok || i < |programs|)
    && StuckProgram(before, Modulus(width), memap, programs, 0) ==
       if ok then StuckProgram(before, Modulus(width), memap, programs, i) else i
  }

  lemma LoadingStarts(map_: Map, width: nat, d: Image, memap: MemoryMap, programs: seq<Program>)
    requires MapOk(map_) && SegmentsOk(d, programs)
    ensures LoadingAt(map_, map_, width, d, memap, programs, 0, true)
  {
  }

  /** One turn, with its place in the loop. */
  method LoadNext(mpu: AddressMap, d: Image, programs: seq<Program>, memap: MemoryMap, i: nat, ghost before: Map)
    returns (ok: bool)
    requires Ready(before, mpu.width, memap) && AllOnBus(programs, Modulus(mpu.width))
    requires i < |programs| && LoadingAt(before, mpu.map_, mpu.width, d, memap, programs, i, true)
    modifies mpu
    ensures ok ==> LoadingAt(before, mpu.map_, mpu.width, d, memap, programs, i + 1, true)
    ensures !ok ==> LoadingAt(before, mpu.map_, mpu.width, d, memap, programs, i, false)
  {
    LayoutKeepsReady(before, mpu.map_, mpu.width, memap);
    assert ProgramOk(d, programs[i]);
    ok := LoadProgram(mpu, d, programs[i], memap, before, programs, i);
  }

  /** The loading loop of elf_reload. */
  method LoadLoop(mpu: AddressMap, d: Image, programs: seq<Program>, memap: MemoryMap) returns (i: nat, ok: bool)
    requires Ready(mpu.map_, mpu.width, memap) && SegmentsOk(d, programs) && AllOnBus(programs, Modulus(mpu.width))
    modifies mpu
    ensures LoadingAt(old(mpu.map_), mpu.map_, mpu.width, d, memap, programs, i, ok) && (ok ==> i == |programs|)
  {
    ghost var before := mpu.map_;
    i := 0;
    LoadingStarts(before, mpu.width, d, memap, programs);
    while i < |programs|
      invariant i <= |programs| && LoadingAt(before, mpu.map_, mpu.width, d, memap, programs, i, true)
    {
      ok := LoadNext(mpu, d, programs, memap, i, before);
      if !ok {
        return;
      }
      i := i + 1;
    }
    ok := true;
  }

  /** The program headers up to the first whose segment cannot be reached. */
  method LoadPrograms(mpu: AddressMap, d: Image, programs: seq<Program>, memap: MemoryMap) returns (ok: bool)
    requires Ready(mpu.map_, mpu.width, memap) && SegmentsOk(d, programs) && AllOnBus(programs, Modulus(mpu.width))
    modifies mpu
    ensures Ready(mpu.map_, mpu.width, memap) && SameLayout(old(mpu.map_), mpu.map_)
    ensures
      var n := StuckProgram(old(mpu.map_), Modulus(mpu.width), memap, programs, 0);
      LoadedSoFar(old(mpu.map_), mpu.map_, mpu.width, d, memap, programs, n) && (ok <==> n == |programs|)
  {
    var i;
    i, ok := LoadLoop(mpu, d, programs, memap);
    LayoutKeepsReady(old(mpu.map_), mpu.map_, mpu.width, memap);
  }

  // ---- elf_reload ----

  /** Elf_Check and Elf64_Check beyond elf_image_check: version, ABI, file type and machine. */
  predicate Accepted(d: Image, machine: nat)
    requires HasHeader(d)
  {
    d[6] == 1 && d[7] == 0 && d[8] == 0 && U16(d, 16) == 2 && U16(d, 18) == machine && U32(d, 20) == 1
  }

  /** The program header table. */
  function Programs(d: Image, h: Header): (programs: seq<Program>)
    requires ProgramsOk(d, h)
    ensures |programs| == h.phnum && SegmentsOk(d, programs)
    ensures forall i :: 0 <= i < h.phnum ==> programs[i] == ProgramAt(d, h, i)
  {
    seq(h.phnum, i requires 0 <= i < h.phnum => ProgramAt(d, h, i))
  }

  /** How far a reset gets: ROM areas cleared, RAM areas cleared, program headers loaded. */
  datatype Progress = Progress(rom: nat, ram: nat, programs: nat)

  function HowFar(map_: Map, m: nat, memap: MemoryMap, programs: seq<Program>): (p: Progress)
    requires 0 < m
    ensures p.rom <= |memap.rom| && p.ram <= |memap.ram| && p.programs <= |programs|
  {
    var rom := StuckArea(map_, m, memap.rom, false, 0);
    if rom < |memap.rom| then Progress(rom, 0, 0)
    else
      var ram := StuckArea(map_, m, memap.ram, true, 0);
      if ram < |memap.ram| then Progress(rom, ram, 0)
      else Progress(rom, ram, StuckProgram(map_, m, memap, programs, 0))
  }

  predicate Completes(map_: Map, m: nat, memap: MemoryMap, programs: seq<Program>)
    requires 0 < m
  {
    HowFar(map_, m, memap, programs) == Progress(|memap.rom|, |memap.ram|, |programs|)
  }

  /** The byte at `a` after a reset that got as far as `p`. */
  ghost function ResetTo(d: Image, memap: MemoryMap, programs: seq<Program>, p: Progress, a: nat, before: Load): Load
    requires SegmentsOk(d, programs) && p.rom <= |memap.rom| && p.ram <= |memap.ram| && p.programs <= |programs|
  {
    Loading(d, memap, programs, p.programs, a,
            Clearing(memap.ram, true, p.ram, a, Clearing(memap.rom, false, p.rom, a, before)))
  }

  /** A reset that completes leaves what `Reset` says. */
  lemma CompleteIsReset(d: Image, memap: MemoryMap, programs: seq<Program>, a: nat, before: Load)
    requires SegmentsOk(d, programs)
    ensures ResetTo(d, memap, programs, Progress(|memap.rom|, |memap.ram|, |programs|), a, before) ==
            Reset(d, memap, programs, a, before)
  {
  }

  ghost predicate ResetDone(before: Map, after: Map, width: nat, d: Image, memap: MemoryMap, programs: seq<Program>,
                            p: Progress) {
    && MapOk(before) && MapOk(after) && SegmentsOk(d, programs)
    && p.rom <= |memap.rom| && p.ram <= |memap.ram| && p.programs <= |programs|
    && forall a: nat :: a < Modulus(width) ==>
         Peek(after, width, a) == ResetTo(d, memap, programs, p, a, Peek(before, width, a))
  }

  /** At every address a complete reset leaves what `ResetAt` says. */
  ghost predicate AllReset(before: Map, after: Map, width: nat, d: Image, memap: MemoryMap, programs: seq<Program>) {
    && MapOk(before) && MapOk(after) && SegmentsOk(d, programs)
    && forall a: nat :: a < Modulus(width) ==>
         ResetAt(d, memap, programs, a, Peek(before, width, a), Peek(after, width, a))
  }

  lemma CompleteIsAllReset(before: Map, after: Map, width: nat, d: Image, memap: MemoryMap, programs: seq<Program>)
    requires ResetDone(before, after, width, d, memap, programs, Progress(|memap.rom|, |memap.ram|, |programs|))
    ensures AllReset(before, after, width, d, memap, programs)
  {
    forall a: nat | a < Modulus(width)
      ensures ResetAt(d, memap, programs, a, Peek(before, width, a), Peek(after, width, a))
    {
      CompleteIsReset(d, memap, programs, a, Peek(before, width, a));
      ResetIsResetAt(d, memap, programs, a, Peek(before, width, a));
    }
  }

  lemma ResetInSteps(before: Map, noRom: Map, noRam: Map, after: Map, width: nat,
                     d: Image, memap: MemoryMap, programs: seq<Program>, p: Progress)
    requires ClearedSoFar(before, noRom, width, memap.rom, false, p.rom)
    requires ClearedSoFar(noRom, noRam, width, memap.ram, true, p.ram)
    requires LoadedSoFar(noRam, after, width, d, memap, programs, p.programs)
    ensures ResetDone(before, after, width, d, memap, programs, p)
  {
  }

  lemma ClearedHaveMemory(memap: MemoryMap)
    ensures forall area :: area in memap.rom ==> area in WithMemory(memap)
    ensures forall area :: area in memap.ram && IsCleared(area, true) ==> area in WithMemory(memap)
  {
  }

  lemma {:induction false} StuckIgnoresBytes(map_: Map, after: Map, m: nat, areas: seq<Area>, i: nat)
    requires 0 < m && SameLayout(map_, after) && i <= |areas|
    ensures StuckArea(after, m, areas, true, i) == StuckArea(map_, m, areas, true, i)
    decreases |areas| - i
  {
    if i < |areas| {
      ReachesIgnoresBytes(map_, after, m, areas[i].start);
      StuckIgnoresBytes(map_, after, m, areas, i + 1);
    }
  }

  lemma {:induction false} StuckProgramIgnoresBytes(map_: Map, after: Map, m: nat, memap: MemoryMap,
                                                    programs: seq<Program>, i: nat)
    requires 0 < m && SameLayout(map_, after) && i <= |programs|
    ensures StuckProgram(after, m, memap, programs, i) == StuckProgram(map_, m, memap, programs, i)
    decreases |programs| - i
  {
    if i < |programs| {
      ReachesIgnoresBytes(map_, after, m, programs[i].paddr);
      StuckProgramIgnoresBytes(map_, after, m, memap, programs, i + 1);
    }
  }

  /** The three loops of elf_reload, one after the other until one fails. */
  method ResetMemory(mpu: AddressMap, d: Image, programs: seq<Program>, memap: MemoryMap) returns (ok: bool)
    requires Ready(mpu.map_, mpu.width, memap) && SegmentsOk(d, programs) && AllOnBus(programs, Modulus(mpu.width))
    modifies mpu
    ensures Ready(mpu.map_, mpu.width, memap)
    ensures ok <==> Completes(old(mpu.map_), Modulus(mpu.width), memap, programs)
    ensures ResetDone(old(mpu.map_), mpu.map_, mpu.width, d, memap, programs,
                      HowFar(old(mpu.map_), Modulus(mpu.width), memap, programs))
  {
    ClearedHaveMemory(memap);
    ghost var before, m := mpu.map_, Modulus(mpu.width);
    ghost var p := HowFar(before, m, memap, programs);
    ok := ClearAreas(mpu, memap, memap.rom, false);
    ghost var noRom := mpu.map_;
    if !ok {
      ResetInSteps(before, noRom, noRom, noRom, mpu.width, d, memap, programs, p);
      return;
    }
    StuckIgnoresBytes(before, noRom, m, memap.ram, 0);
    ok := ClearAreas(mpu, memap, memap.ram, true);
    ghost var noRam := mpu.map_;
    LayoutIsTransitive(before, noRom, noRam);
    if !ok {
      ResetInSteps(before, noRom, noRam, noRam, mpu.width, d, memap, programs, p);
      return;
    }
    StuckProgramIgnoresBytes(before, noRam, m, memap, programs, 0);
    ok := LoadPrograms(mpu, d, programs, memap);
    ResetInSteps(before, noRom, noRam, mpu.map_, mpu.width, d, memap, programs, p);
  }

  /** elf_reload: it refuses exactly the images that elf_image_check or the header check refuses, and then changes
      nothing; otherwise every address holds what the reset has done as far as it got, and it succeeds exactly when
      it got through. */
  method Reload(mpu: AddressMap, d: Image, machine: nat, memap: MemoryMap) returns (ok: bool)
    requires Ready(mpu.map_, mpu.width, memap) && |d| < TWO_TO_64
    requires WellFormed(d) ==> AllOnBus(Programs(d, ReadHeader(d)), Modulus(mpu.width))
    modifies mpu
    ensures ok <==> WellFormed(d) && Accepted(d, machine)
                    && Completes(old(mpu.map_), Modulus(mpu.width), memap, Programs(d, ReadHeader(d)))
    ensures !(WellFormed(d) && Accepted(d, machine)) ==> mpu.map_ == old(mpu.map_)
    ensures WellFormed(d) && Accepted(d, machine) ==>
              && Ready(mpu.map_, mpu.width, memap)
              && ResetDone(old(mpu.map_), mpu.map_, mpu.width, d, memap, Programs(d, ReadHeader(d)),
                           HowFar(old(mpu.map_), Modulus(mpu.width), memap, Programs(d, ReadHeader(d))))
    ensures ok ==> AllReset(old(mpu.map_), mpu.map_, mpu.width, d, memap, Programs(d, ReadHeader(d)))
  {
    ok := ElfImageCheck(d);
    if !ok || !Accepted(d, machine) {
      return false;
    }
    ok := ResetMemory(mpu, d, Programs(d, ReadHeader(d)), memap);
    if ok {
      CompleteIsAllReset(old(mpu.map_), mpu.map_, mpu.width, d, memap, Programs(d, ReadHeader(d)));
    }
  }

  // ---- Exactly when a reset fails ----

  /** Clearing gets through a list exactly when none of its areas ends at the top of the address space.  elf_load
      accepts such an area; every elf_reload then fails. */
  lemma ClearsIff(map_: Map, width: nat, memap: MemoryMap, areas: seq<Area>, ram: bool)
    requires Ready(map_, width, memap)
    requires forall area :: area in areas && IsCleared(area, ram) ==> area in Cleared(memap)
    ensures StuckArea(map_, Modulus(width), areas, ram, 0) == |areas| <==>
            forall area :: area in areas && IsCleared(area, ram) ==> !AtTop(area, width)
  {
    forall area | area in areas && IsCleared(area, ram)
      ensures IsStuckArea(map_, Modulus(width), area, ram) <==> AtTop(area, width)
    {
      EachIsMapped(map_, width, Cleared(memap), true, area);
      var i :| HasRegion(map_, width, area, i) && map_.regions[i].defaultOps;
      AreaReachedIff(map_, width, area, i, area.start);
    }
  }

  /** A segment stops the reset exactly when its area ends at the top, or belongs to an external device whose
      operations give no pointer. */
  lemma StuckSegmentIff(map_: Map, width: nat, memap: MemoryMap, p: Program, area: Area, i: nat)
    requires Loads(memap, p) && 0 < p.memsz && AreaCovers(area, p.paddr, p.memsz) && HasRegion(map_, width, area, i)
    ensures IsStuck(map_, Modulus(width), memap, p) <==>
            AtTop(area, width) || !(map_.regions[i].defaultOps || map_.regions[i].ownPointer)
  {
    AreaReachedIff(map_, width, area, i, p.paddr);
  }

  /** A reset of an accepted image succeeds exactly when no ROM or contiguous RAM area ends at the top of the address
      space and no segment is stuck. */
  lemma CompletesIff(map_: Map, width: nat, memap: MemoryMap, programs: seq<Program>)
    requires Ready(map_, width, memap)
    ensures Completes(map_, Modulus(width), memap, programs) <==>
            && (forall area :: area in Cleared(memap) ==> !AtTop(area, width))
            && (forall k :: 0 <= k < |programs| ==> !IsStuck(map_, Modulus(width), memap, programs[k]))
  {
    ClearsIff(map_, width, memap, memap.rom, false);
    ClearsIff(map_, width, memap, memap.ram, true);
    assert forall area :: area in Cleared(memap) <==> area in memap.rom || (area in memap.ram && IsCleared(area, true));
  }
}
