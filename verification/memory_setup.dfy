/**
  The region-creating loops at the head of Elf_LoadProgram and Elf64_LoadProgram (src/device/mpu/loader/loader.c):
  over areas that do not overlap they leave the memory that a reset relies on.
 */
module MemorySetup {
  import opened ElfImage
  import opened Mpu
  import opened Loader
  import opened MallocSpec

  // ---- One request ----

  /** mpu_address_search_region finds something: a region of the memory configuration, with or without memory. */
  predicate Taken(map_: Map, m: nat, start: nat, size: nat)
    requires 0 < m
  {
    exists k :: 0 <= k < map_.dynamicNum && Covers(map_.regions[k], m, start, size)
  }

  /** mpu_address_set_rom_ram and mpu_address_set_dev: a region is added unless one covers the range already. */
  method SetRegion(mpu: AddressMap, r: Region) returns (added: bool)
    modifies mpu`map_
    ensures added <==> !Taken(old(mpu.map_), Modulus(mpu.width), r.start, r.size)
    ensures mpu.map_ == if added then Changed(old(mpu.map_), Add(r)) else old(mpu.map_)
  {
    var i := 0;
    while i < mpu.map_.dynamicNum
      invariant i <= mpu.map_.dynamicNum
      invariant forall k :: 0 <= k < i ==> !Covers(mpu.map_.regions[k], Modulus(mpu.width), r.start, r.size)
    {
      if Covers(mpu.map_.regions[i], Modulus(mpu.width), r.start, r.size) {
        return false;
      }
      i := i + 1;
    }
    mpu.map_ := Changed(mpu.map_, Add(r));
    added := true;
  }

  // ---- A list of requests ----

  /** The map with regions added behind its dynamic ones. */
  function Inserted(map_: Map, regions: seq<Region>): Map {
    Map(map_.regions[..map_.dynamicNum] + regions + map_.regions[map_.dynamicNum..], map_.dynamicNum + |regions|)
  }

  predicate Disjoint(start: nat, size: nat, otherStart: nat, otherSize: nat) {
    start + size <= otherStart || otherStart + otherSize <= start
  }

  ghost predicate Apart(regions: seq<Region>, m: nat) {
    && (forall r :: r in regions ==> Plain(r, m) && 0 < r.size)
    && (forall i, j :: 0 <= i < j < |regions| ==>
          Disjoint(regions[i].start, regions[i].size, regions[j].start, regions[j].size))
  }

  /** A request for a range of its own is never taken. */
  lemma ApartIsFree(map_: Map, width: nat, regions: seq<Region>, i: nat)
    requires Apart(regions, Modulus(width)) && map_.dynamicNum == 0 && i < |regions|
    ensures !Taken(Inserted(map_, regions[..i]), Modulus(width), regions[i].start, regions[i].size)
  {
    var now := Inserted(map_, regions[..i]);
    forall k | 0 <= k < i
      ensures !Covers(now.regions[k], Modulus(width), regions[i].start, regions[i].size)
    {
      assert now.regions[k] == regions[k] && regions[k] in regions && regions[i] in regions;
      if Covers(regions[k], Modulus(width), regions[i].start, regions[i].size) {
        CoveredAddressInside(regions[k], width, regions[i].start, regions[i].size);
      }
    }
  }

  lemma InsertOneMore(map_: Map, regions: seq<Region>, i: nat)
    requires map_.dynamicNum == 0 && i < |regions|
    ensures Changed(Inserted(map_, regions[..i]), Add(regions[i])) == Inserted(map_, regions[..i + 1])
  {
    var now := Inserted(map_, regions[..i]);
    assert now.regions[..i] == regions[..i] && now.regions[i..] == map_.regions;
    assert regions[..i + 1] == regions[..i] + [regions[i]];
    assert Inserted(map_, regions[..i + 1]).regions == regions[..i + 1] + map_.regions;
  }

  /** The region-creating loops, as one sequence of requests. */
  method SetRegions(mpu: AddressMap, regions: seq<Region>)
    requires mpu.map_.dynamicNum == 0 && Apart(regions, Modulus(mpu.width))
    modifies mpu`map_
    ensures mpu.map_ == Inserted(old(mpu.map_), regions)
  {
    ghost var before := mpu.map_;
    var i := 0;
    assert Inserted(before, regions[..0]).regions == before.regions;
    while i < |regions|
      invariant i <= |regions| && mpu.map_ == Inserted(before, regions[..i])
    {
      ApartIsFree(before, mpu.width, regions, i);
      var added := SetRegion(mpu, regions[i]);
      InsertOneMore(before, regions, i);
      i := i + 1;
    }
    assert regions[..|regions|] == regions;
  }

  /** Once the regions are there, mpu_address_search_region finds one by its own range exactly when it does not end
      at the top of the address space; mpu_address_set_malloc_region attaches a NULL for a unit that does. */
  lemma FoundAgainIff(map_: Map, width: nat, regions: seq<Region>, i: nat)
    requires Apart(regions, Modulus(width)) && map_.dynamicNum == 0 && i < |regions|
    requires regions[i].start + regions[i].size <= Modulus(width)
    ensures Taken(Inserted(map_, regions), Modulus(width), regions[i].start, regions[i].size) <==>
            regions[i].start + regions[i].size < Modulus(width)
  {
    var after, r := Inserted(map_, regions), regions[i];
    assert r in regions && after.regions[i] == r;
    CoversIffInside(r, width, r.start, r.size);
    forall k | 0 <= k < |regions| && k != i
      ensures !Covers(after.regions[k], Modulus(width), r.start, r.size)
    {
      assert after.regions[k] == regions[k] && regions[k] in regions;
      if Covers(regions[k], Modulus(width), r.start, r.size) {
        CoveredAddressInside(regions[k], width, r.start, r.size);
      }
    }
  }

  // ---- The requests for a memory configuration ----

  /** An area; `units`: a MALLOC area, mapped unit by unit and without memory. */
  datatype Slot = Slot(area: Area, units: bool)

  function SlotsOf(areas: seq<Area>, ram: bool): (slots: seq<Slot>)
    ensures |slots| == |areas|
    ensures forall i :: 0 <= i < |areas| ==> slots[i] == Slot(areas[i], !IsCleared(areas[i], ram))
  {
    seq(|areas|, i requires 0 <= i < |areas| => Slot(areas[i], !IsCleared(areas[i], ram)))
  }

  function Slots(memap: MemoryMap): (slots: seq<Slot>) {
    SlotsOf(memap.rom, false) + SlotsOf(memap.ram, true) + SlotsOf(memap.dev, false)
  }

  function Units(start: nat, n: nat, m: nat): (regions: seq<Region>)
    requires 0 < m
    ensures |regions| == n
    ensures forall i :: 0 <= i < n ==>
              regions[i] == Region(GlobalMemory, start + i * UNIT_BYTES, UNIT_BYTES, m - 1, Unbacked, true, false)
  {
    seq(n, (i: nat) => Region(GlobalMemory, start + i * UNIT_BYTES, UNIT_BYTES, m - 1, Unbacked, true, false))
  }

  /** `place` is the region that an area with memory gets: its contents and operations come from malloc, calloc, a
      mapped file or a device library. */
  function RequestsFor(slot: Slot, m: nat, place: Area -> Region): (regions: seq<Region>)
    requires 0 < m
  {
    if slot.units then Units(slot.area.start, slot.area.bytes / UNIT_BYTES, m) else [place(slot.area)]
  }

  function Requests(slots: seq<Slot>, m: nat, place: Area -> Region): (regions: seq<Region>)
    requires 0 < m
  {
    if slots == [] then [] else RequestsFor(slots[0], m, place) + Requests(slots[1..], m, place)
  }

  predicate Places(place: Area -> Region, m: nat, area: Area) {
    match place(area)
    case Region(_, start, size, mask, data, _, _) =>
      start == area.start && size == area.bytes && mask == m - 1 && data.Backed? && |data.bytes| == size
  }

  /** Areas that are not empty, fit into the address space and do not overlap. */
  ghost predicate Separate(slots: seq<Slot>, m: nat) {
    && (forall s :: s in slots ==> 0 < s.area.bytes < m && s.area.start + s.area.bytes <= m)
    && (forall i, j :: 0 <= i < j < |slots| ==>
          Disjoint(slots[i].area.start, slots[i].area.bytes, slots[j].area.start, slots[j].area.bytes))
  }

  ghost predicate PlacesAll(place: Area -> Region, m: nat, slots: seq<Slot>) {
    forall s :: s in slots && !s.units ==> Places(place, m, s.area)
  }

  predicate Within(r: Region, area: Area) {
    0 < r.size && area.start <= r.start && r.start + r.size <= area.start + area.bytes
  }

  lemma UnitsWithin(area: Area, m: nat, i: nat)
    requires 0 < m && i < area.bytes / UNIT_BYTES
    ensures Within(Units(area.start, area.bytes / UNIT_BYTES, m)[i], area)
  {
    assert (i + 1) * UNIT_BYTES <= area.bytes;
  }

  lemma SlotWithin(slot: Slot, m: nat, place: Area -> Region)
    requires 0 < m && 0 < slot.area.bytes < m && slot.area.start + slot.area.bytes <= m
    requires !slot.units ==> Places(place, m, slot.area)
    ensures forall r :: r in RequestsFor(slot, m, place) ==> Within(r, slot.area) && Plain(r, m)
    ensures Apart(RequestsFor(slot, m, place), m)
  {
    if slot.units {
      forall i | 0 <= i < slot.area.bytes / UNIT_BYTES
        ensures Within(Units(slot.area.start, slot.area.bytes / UNIT_BYTES, m)[i], slot.area)
      {
        UnitsWithin(slot.area, m, i);
      }
    }
  }

  /** Every request lies in one of the areas. */
  lemma {:induction false} RequestsWithin(slots: seq<Slot>, m: nat, place: Area -> Region, r: Region)
    requires 0 < m && Separate(slots, m) && PlacesAll(place, m, slots) && r in Requests(slots, m, place)
    ensures exists s :: s in slots && Within(r, s.area) && Plain(r, m)
  {
    SlotWithin(slots[0], m, place);
    if r !in RequestsFor(slots[0], m, place) {
      RequestsWithin(slots[1..], m, place, r);
    }
  }

  lemma JoinApart(xs: seq<Region>, ys: seq<Region>, m: nat)
    requires Apart(xs, m) && Apart(ys, m)
    requires forall x, y :: x in xs && y in ys ==> Disjoint(x.start, x.size, y.start, y.size)
    ensures Apart(xs + ys, m)
  {
    forall i, j | 0 <= i < j < |xs + ys|
      ensures Disjoint((xs + ys)[i].start, (xs + ys)[i].size, (xs + ys)[j].start, (xs + ys)[j].size)
    {
      if i < |xs| <= j {
        assert xs[i] in xs && ys[j - |xs|] in ys;
      }
    }
  }

  lemma {:induction false} RequestsApart(slots: seq<Slot>, m: nat, place: Area -> Region)
    requires 0 < m && Separate(slots, m) && PlacesAll(place, m, slots)
    ensures Apart(Requests(slots, m, place), m)
  {
    if slots != [] {
      SlotWithin(slots[0], m, place);
      RequestsApart(slots[1..], m, place);
      forall x, y | x in RequestsFor(slots[0], m, place) && y in Requests(slots[1..], m, place)
        ensures Disjoint(x.start, x.size, y.start, y.size)
      {
        RequestsWithin(slots[1..], m, place, y);
        var s :| s in slots[1..] && Within(y, s.area);
        var j :| 0 <= j < |slots[1..]| && slots[1..][j] == s;
        assert slots[j + 1] == s;
      }
      JoinApart(RequestsFor(slots[0], m, place), Requests(slots[1..], m, place), m);
    }
  }

  lemma {:induction false} RequestFor(slots: seq<Slot>, m: nat, place: Area -> Region, s: Slot) returns (i: nat)
    requires 0 < m && s in slots && !s.units
    ensures i < |Requests(slots, m, place)| && Requests(slots, m, place)[i] == place(s.area)
  {
    if s == slots[0] {
      i := 0;
    } else {
      var k := RequestFor(slots[1..], m, place, s);
      i := |RequestsFor(slots[0], m, place)| + k;
    }
  }

  /** Unit `u` of a MALLOC area has a region, without memory so far. */
  ghost predicate UnitMapped(map_: Map, m: nat, area: Area, u: nat)
    requires 0 < m
  {
    exists k :: 0 <= k < map_.dynamicNum
      && map_.regions[k] == Region(GlobalMemory, area.start + u * UNIT_BYTES, UNIT_BYTES, m - 1, Unbacked, true, false)
  }

  lemma {:induction false} RequestForUnit(slots: seq<Slot>, m: nat, place: Area -> Region, s: Slot, u: nat)
    returns (i: nat)
    requires 0 < m && s in slots && s.units && u < s.area.bytes / UNIT_BYTES
    ensures i < |Requests(slots, m, place)|
    ensures Requests(slots, m, place)[i] ==
            Region(GlobalMemory, s.area.start + u * UNIT_BYTES, UNIT_BYTES, m - 1, Unbacked, true, false)
  {
    if s == slots[0] {
      i := u;
    } else {
      var k := RequestForUnit(slots[1..], m, place, s, u);
      i := |RequestsFor(slots[0], m, place)| + k;
    }
  }

  /** Every whole unit of every MALLOC area gets its region. */
  lemma UnitsAreMapped(map_: Map, m: nat, memap: MemoryMap, place: Area -> Region, area: Area, u: nat)
    requires 0 < m && map_.dynamicNum == 0 && area in memap.ram && area.isMalloc && u < area.bytes / UNIT_BYTES
    ensures UnitMapped(Inserted(map_, Requests(Slots(memap), m, place)), m, area, u)
  {
    var n :| 0 <= n < |memap.ram| && memap.ram[n] == area;
    assert SlotsOf(memap.ram, true)[n] == Slot(area, true);
    assert Slots(memap)[|memap.rom| + n] == Slot(area, true);
    var i := RequestForUnit(Slots(memap), m, place, Slot(area, true), u);
    assert Inserted(map_, Requests(Slots(memap), m, place)).regions[i] == Requests(Slots(memap), m, place)[i];
  }

  // ---- The result ----

  /** The regions built into the target cover no address of the configuration. */
  ghost predicate Clear(map_: Map, m: nat, slots: seq<Slot>)
    requires 0 < m
  {
    forall r, s, a: nat {:trigger Covers(r, m, a, 1), s in slots} ::
      r in map_.regions && s in slots && InArea(s.area, a) ==> !Covers(r, m, a, 1)
  }

  /** Of the regions added, only region `i` covers its bytes. */
  lemma OthersStayOut(regions: seq<Region>, width: nat, i: nat, k: nat, a: nat)
    requires Apart(regions, Modulus(width)) && i < |regions| && k < |regions| && k != i && a < Modulus(width)
    requires regions[i].start <= a < regions[i].start + regions[i].size
    ensures !Covers(regions[k], Modulus(width), a, 1)
  {
    assert regions[k] in regions;
    if Covers(regions[k], Modulus(width), a, 1) {
      CoveredAddressInside(regions[k], width, a, 1);
    }
  }

  lemma AloneInMap(map_: Map, width: nat, regions: seq<Region>, area: Area, i: nat)
    requires map_.dynamicNum == 0 && Apart(regions, Modulus(width)) && i < |regions|
    requires regions[i].start == area.start && regions[i].size == area.bytes
    requires area.start + area.bytes <= Modulus(width)
    requires Clear(map_, Modulus(width), [Slot(area, false)])
    ensures Alone(Inserted(map_, regions), Modulus(width), area, i)
  {
    var m, after := Modulus(width), Inserted(map_, regions);
    forall a: nat, k {:trigger Covers(after.regions[k], m, a, 1)} |
      InArea(area, a) && 0 <= k < |after.regions| && k != i
      ensures !Covers(after.regions[k], m, a, 1)
    {
      if k < |regions| {
        OthersStayOut(regions, width, i, k, a);
      } else {
        assert after.regions[k] in map_.regions && Slot(area, false) in [Slot(area, false)];
      }
    }
  }

  lemma OwnRegion(map_: Map, width: nat, slots: seq<Slot>, place: Area -> Region, s: Slot, plain: bool)
    requires map_.dynamicNum == 0 && Clear(map_, Modulus(width), slots)
    requires Separate(slots, Modulus(width)) && PlacesAll(place, Modulus(width), slots)
    requires s in slots && !s.units && (plain ==> place(s.area).defaultOps)
    ensures Mapped(Inserted(map_, Requests(slots, Modulus(width), place)), width, s.area, plain)
  {
    var regions := Requests(slots, Modulus(width), place);
    var i := RequestFor(slots, Modulus(width), place, s);
    RequestsApart(slots, Modulus(width), place);
    assert Places(place, Modulus(width), s.area);
    AloneInMap(map_, width, regions, s.area, i);
    assert Inserted(map_, regions).regions[i] == regions[i];
    assert HasRegion(Inserted(map_, regions), width, s.area, i);
  }

  lemma {:induction false} AllAreMapped(map_: Map, width: nat, areas: seq<Area>, plain: bool)
    requires forall area :: area in areas ==> Mapped(map_, width, area, plain)
    ensures AllMapped(map_, width, areas, plain)
  {
    if areas != [] {
      AllAreMapped(map_, width, areas[1..], plain);
    }
  }

  lemma SlotOf(memap: MemoryMap, area: Area)
    requires area in WithMemory(memap)
    ensures Slot(area, false) in Slots(memap)
  {
    if area in memap.rom {
      var i :| 0 <= i < |memap.rom| && memap.rom[i] == area;
      assert SlotsOf(memap.rom, false)[i] == Slot(area, false);
    } else if area in memap.dev {
      var i :| 0 <= i < |memap.dev| && memap.dev[i] == area;
      assert SlotsOf(memap.dev, false)[i] == Slot(area, false);
    } else {
      var i :| 0 <= i < |memap.ram| && memap.ram[i] == area;
      assert SlotsOf(memap.ram, true)[i] == Slot(area, false);
    }
  }

  lemma SetUpMapOk(map_: Map, width: nat, slots: seq<Slot>, place: Area -> Region)
    requires MapOk(map_) && map_.dynamicNum == 0
    requires Separate(slots, Modulus(width)) && PlacesAll(place, Modulus(width), slots)
    ensures MapOk(Inserted(map_, Requests(slots, Modulus(width), place)))
  {
    var regions := Requests(slots, Modulus(width), place);
    var after := Inserted(map_, regions);
    forall k | 0 <= k < |after.regions|
      ensures RegionOk(after.regions[k])
    {
      if k < |regions| {
        RequestOk(slots, Modulus(width), place, k);
      } else {
        assert RegionOk(map_.regions[k - |regions|]);
      }
    }
  }

  lemma {:induction false} RequestOk(slots: seq<Slot>, m: nat, place: Area -> Region, k: nat)
    requires 0 < m && PlacesAll(place, m, slots) && k < |Requests(slots, m, place)|
    ensures RegionOk(Requests(slots, m, place)[k])
  {
    var n := |RequestsFor(slots[0], m, place)|;
    if n <= k {
      RequestOk(slots[1..], m, place, k - n);
    }
  }

  /** Over areas that are not empty, do not overlap and meet no region of the target, the region-creating loops leave
      each area a region of its own: the state in which elf_reload is started. */
  lemma SetUpIsReady(map_: Map, width: nat, memap: MemoryMap, place: Area -> Region)
    requires MapOk(map_) && map_.dynamicNum == 0 && Clear(map_, Modulus(width), Slots(memap))
    requires Separate(Slots(memap), Modulus(width)) && PlacesAll(place, Modulus(width), Slots(memap))
    requires forall area :: area in Cleared(memap) ==> place(area).defaultOps
    ensures Ready(Inserted(map_, Requests(Slots(memap), Modulus(width), place)), width, memap)
  {
    var after := Inserted(map_, Requests(Slots(memap), Modulus(width), place));
    SetUpMapOk(map_, width, Slots(memap), place);
    forall area | area in WithMemory(memap)
      ensures Mapped(after, width, area, false)
    {
      SlotOf(memap, area);
      OwnRegion(map_, width, Slots(memap), place, Slot(area, false), false);
    }
    forall area | area in Cleared(memap)
      ensures Mapped(after, width, area, true)
    {
      SlotOf(memap, area);
      OwnRegion(map_, width, Slots(memap), place, Slot(area, false), true);
    }
    AllAreMapped(after, width, WithMemory(memap), false);
    AllAreMapped(after, width, Cleared(memap), true);
  }

  /** The loops themselves. */
  method SetUp(mpu: AddressMap, memap: MemoryMap, place: Area -> Region)
    requires MapOk(mpu.map_) && mpu.map_.dynamicNum == 0 && Clear(mpu.map_, Modulus(mpu.width), Slots(memap))
    requires Separate(Slots(memap), Modulus(mpu.width)) && PlacesAll(place, Modulus(mpu.width), Slots(memap))
    requires forall area :: area in Cleared(memap) ==> place(area).defaultOps
    modifies mpu`map_
    ensures Ready(mpu.map_, mpu.width, memap)
    ensures forall area, u: nat :: area in memap.ram && area.isMalloc && u < area.bytes / UNIT_BYTES ==>
              UnitMapped(mpu.map_, Modulus(mpu.width), area, u)
  {
    forall area, u: nat | area in memap.ram && area.isMalloc && u < area.bytes / UNIT_BYTES
      ensures
        var m := Modulus(mpu.width);
        UnitMapped(Inserted(mpu.map_, Requests(Slots(memap), m, place)), m, area, u)
    {
      UnitsAreMapped(mpu.map_, Modulus(mpu.width), memap, place, area, u);
    }
    RequestsApart(Slots(memap), Modulus(mpu.width), place);
    SetUpIsReady(mpu.map_, mpu.width, memap, place);
    SetRegions(mpu, Requests(Slots(memap), Modulus(mpu.width), place));
  }

  // ---- A configuration whose reset stops half-way ----

  /** In a 5-bit address space: eight bytes of ROM at 0, and RAM from 16 to the very top. */
  function TopConfiguration(): MemoryMap {
    MemoryMap([Area(0, 8, false)], [Area(16, 16, false)], [])
  }

  function Blank(area: Area): Region {
    Region(GlobalMemory, area.start, area.bytes, 31, Backed(Zeros(area.bytes)), true, false)
  }

  lemma TopConfigurationIsReady()
    ensures Modulus(5) == 32
    ensures Ready(Inserted(Map([], 0), Requests(Slots(TopConfiguration()), 32, Blank)), 5, TopConfiguration())
  {
    assert Modulus(1) == 2 && Modulus(3) == 8;
    assert Slots(TopConfiguration()) == [Slot(Area(0, 8, false), false), Slot(Area(16, 16, false), false)];
    SetUpIsReady(Map([], 0), 5, TopConfiguration(), Blank);
  }

  /** elf_load sets this configuration up, but every elf_reload clears the ROM and then fails at the RAM. */
  lemma ResetStopsHalfWay(programs: seq<Program>)
    ensures
      var map_ := Inserted(Map([], 0), Requests(Slots(TopConfiguration()), 32, Blank));
      && Modulus(5) == 32 && Ready(map_, 5, TopConfiguration())
      && HowFar(map_, 32, TopConfiguration(), programs) == Progress(1, 0, 0)
      && !Completes(map_, 32, TopConfiguration(), programs)
  {
    TopConfigurationIsReady();
    var map_ := Inserted(Map([], 0), Requests(Slots(TopConfiguration()), 32, Blank));
    ClearsIff(map_, 5, TopConfiguration(), [Area(0, 8, false)], false);
    ClearsIff(map_, 5, TopConfiguration(), [Area(16, 16, false)], true);
    assert AtTop(Area(16, 16, false), 5);
  }
}
