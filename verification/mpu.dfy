/**
  Region search, its last-region cache, and host memory windows: src/device/mpu/mpu.c and the
  memory half of src/main/athrill_host_function.c.  Addresses are AthrillAddrType values in [0, m)
  with m = Modulus(width), and address arithmetic wraps modulo m as in C.
 */
module Mpu {
  import opened Numbers

  datatype Kind = ReadonlyMemory | GlobalMemory | LocalMemory | PrivateMemory | Device

  /** region->data: a MALLOC region has none until it is first used. */
  datatype Backing = Unbacked | Backed(bytes: seq<byte>)

  /** `defaultOps`: the operations are default_memory_operation; `ownPointer`: its own have a get_pointer. */
  datatype Region = Region(kind: Kind, start: nat, size: nat, mask: nat, data: Backing, defaultOps: bool,
                           ownPointer: bool)

  function Modulus(width: nat): (m: nat)
    ensures 0 < m
  {
    if width == 0 then 1 else 2 * Modulus(width - 1)
  }

  /** The bitwise and of two addresses. */
  function And(a: nat, b: nat): (r: nat)
    ensures r <= a
  {
    if a == 0 || b == 0 then 0 else 2 * And(a / 2, b / 2) + (if a % 2 == 1 && b % 2 == 1 then 1 else 0)
  }

  /** MPU_ADDRESS_REGION_MASK_ALL leaves every address alone. */
  lemma {:induction false} MaskAll(a: nat, width: nat)
    requires a < Modulus(width)
    ensures And(a, Modulus(width) - 1) == a
  {
    if width > 0 && a > 0 {
      MaskAll(a / 2, width - 1);
    }
  }

  /** Bit `i` of a number. */
  predicate BitAt(x: nat, i: nat) {
    if i == 0 then x % 2 == 1 else BitAt(x / 2, i - 1)
  }

  lemma {:induction false} NoBits(i: nat)
    ensures !BitAt(0, i)
  {
    if i > 0 {
      NoBits(i - 1);
    }
  }

  /** `And` has exactly the bits that both have. */
  lemma {:induction false} AndBits(a: nat, b: nat, i: nat)
    ensures BitAt(And(a, b), i) <==> BitAt(a, i) && BitAt(b, i)
    decreases i
  {
    if a == 0 || b == 0 {
      NoBits(i);
    } else if i > 0 {
      AndBits(a / 2, b / 2, i - 1);
    }
  }

  /** The bits determine the number, so `And` is the only such number. */
  lemma {:induction false} BitsAreAll(x: nat, y: nat)
    requires forall i: nat :: BitAt(x, i) == BitAt(y, i)
    ensures x == y
    decreases x + y
  {
    assert BitAt(x, 0) == BitAt(y, 0);
    if x + y > 0 {
      forall i: nat
        ensures BitAt(x / 2, i) == BitAt(y / 2, i)
      {
        assert BitAt(x, i + 1) == BitAt(y, i + 1);
      }
      BitsAreAll(x / 2, y / 2);
    }
  }

  /** x modulo m */
  function Wrap(x: nat, m: nat): (r: nat)
    requires 0 < m
    ensures r < m && r <= x
    decreases x
  {
    if x < m then x else Wrap(x - m, m)
  }

  /** `Wrap` leaves the remainder: what it takes away is a multiple of m. */
  lemma {:induction false} WrapIsRemainder(x: nat, m: nat) returns (turns: nat)
    requires 0 < m
    ensures x == turns * m + Wrap(x, m)
    decreases x
  {
    turns := 0;
    if x >= m {
      var fewer := WrapIsRemainder(x - m, m);
      turns := fewer + 1;
    }
  }

  /** The four bounds that region_covers compares. */
  datatype Bounds = Bounds(start: nat, end: nat, first: nat, past: nat)

  function BoundsOf(r: Region, m: nat, addr: nat, size: nat): Bounds
    requires 0 < m
  {
    Bounds(r.start, Wrap(r.start + r.size, m), And(addr, r.mask), Wrap(And(addr, r.mask) + size, m))
  }

  /** region_covers: the containment test of every search. */
  predicate Covers(r: Region, m: nat, addr: nat, size: nat)
    requires 0 < m
  {
    match BoundsOf(r, m, addr, size)
    case Bounds(start, end, first, past) => start <= first < end && start < past <= end
  }

  predicate Plain(r: Region, m: nat) {
    r.mask == m - 1 && r.start < m && r.size < m
  }

  /** For an access that does not wrap, the wrapping test is exact: it accepts the access exactly
      when it lies inside the region in true integers, and the region ends below the top address. */
  lemma CoversIffInside(r: Region, width: nat, addr: nat, size: nat)
    requires Plain(r, Modulus(width)) && 0 < size && addr < Modulus(width) && addr + size <= Modulus(width)
    ensures Covers(r, Modulus(width), addr, size) <==>
            r.start + r.size < Modulus(width) && r.start <= addr && addr + size <= r.start + r.size
  {
    MaskAll(addr, width);
  }

  /** The same for any mask: the masked access must lie inside the region, which ends below the top address. */
  lemma MaskedCoversIff(r: Region, m: nat, addr: nat, size: nat)
    requires r.start < m && r.size < m && 0 < size && And(addr, r.mask) + size <= m
    ensures Covers(r, m, addr, size) <==>
            r.start + r.size < m && r.start <= And(addr, r.mask) && And(addr, r.mask) + size <= r.start + r.size
  {
    assert r.start + r.size >= m ==> Wrap(r.start + r.size, m) == Wrap(r.start + r.size - m, m);
    assert And(addr, r.mask) + size == m ==> Wrap(m, m) == Wrap(0, m) == 0;
  }

  /** Whatever the access size, the first byte of a covered access lies inside the region. */
  lemma CoveredAddressInside(r: Region, width: nat, addr: nat, size: nat)
    requires Plain(r, Modulus(width)) && addr < Modulus(width) && Covers(r, Modulus(width), addr, size)
    ensures r.start <= addr < r.start + r.size < Modulus(width)
  {
    MaskAll(addr, width);
  }

  /** An access that wraps can be accepted although it leaves the region: four bytes at the last
      address of a region that spans all but one byte of the address space. */
  lemma WrappedAccessAccepted(width: nat)
    requires 2 <= width
    ensures
      var m := Modulus(width);
      var r := Region(GlobalMemory, 0, m - 1, m - 1, Unbacked, true, false);
      Plain(r, m) && Covers(r, m, m - 2, 4) && m - 2 + 4 > r.start + r.size
  {
    var m := Modulus(width);
    assert m == 2 * Modulus(width - 1) && Modulus(width - 1) == 2 * Modulus(width - 2);
    MaskAll(m - 2, width);
    assert Wrap(m + 2, m) == Wrap(2, m) == 2;
  }

  /** An accepted access lies wholly inside the region exactly when it does not run past the top of
      the address space. */
  lemma AcceptedIsInsideIff(r: Region, width: nat, addr: nat, size: nat)
    requires Plain(r, Modulus(width)) && 0 < size && addr < Modulus(width) && Covers(r, Modulus(width), addr, size)
    ensures addr + size <= r.start + r.size <==> addr + size <= Modulus(width)
  {
    CoveredAddressInside(r, width, addr, size);
    if addr + size <= Modulus(width) {
      CoversIffInside(r, width, addr, size);
    }
  }

  // ---- Searches ----

  /** mpu_address_map in search order: the `dynamicNum` regions of the memory configuration, then
      those built into the target. */
  datatype RawMap = Map(regions: seq<Region>, dynamicNum: nat)

  type Map = map_: RawMap | map_.dynamicNum <= |map_.regions| witness Map([], 0)

  /** The first region from `i` on that covers the access, or the number of regions. */
  function FirstCover(regions: seq<Region>, m: nat, addr: nat, size: nat, i: nat): (k: nat)
    requires 0 < m && i <= |regions|
    ensures i <= k <= |regions| && (k < |regions| ==> Covers(regions[k], m, addr, size))
    decreases |regions| - i
  {
    if i == |regions| || Covers(regions[i], m, addr, size) then i else FirstCover(regions, m, addr, size, i + 1)
  }

  lemma {:induction false} FirstCoverIsFirst(regions: seq<Region>, m: nat, addr: nat, size: nat, i: nat, n: nat)
    requires 0 < m && i <= n < |regions| && Covers(regions[n], m, addr, size)
    ensures FirstCover(regions, m, addr, size, i) <= n
    decreases n - i
  {
    if i < n && !Covers(regions[i], m, addr, size) {
      FirstCoverIsFirst(regions, m, addr, size, i + 1, n);
    }
  }

  datatype Hit = Miss | Found(index: nat)

  /** The search without the cache. */
  function Search(map_: Map, m: nat, addr: nat, size: nat): (hit: Hit)
    requires 0 < m
    ensures hit.Found? ==> hit.index < |map_.regions| && Covers(map_.regions[hit.index], m, addr, size)
  {
    var k := FirstCover(map_.regions, m, addr, size, 0);
    if k == |map_.regions| || (k < map_.dynamicNum && map_.regions[k].data.Unbacked?) then Miss else Found(k)
  }

  /** Exactly which region a search finds: the first that covers the access, and a configured one only once it has
      memory. */
  lemma SearchFindsIff(map_: Map, m: nat, addr: nat, size: nat, k: nat)
    requires 0 < m
    ensures Search(map_, m, addr, size) == Found(k) <==>
            && k < |map_.regions| && Covers(map_.regions[k], m, addr, size)
            && (forall j :: 0 <= j < k ==> !Covers(map_.regions[j], m, addr, size))
            && (k < map_.dynamicNum ==> map_.regions[k].data.Backed?)
  {
    if k < |map_.regions| && Covers(map_.regions[k], m, addr, size) {
      FirstCoverIff(map_.regions, m, addr, size, 0, k);
    }
  }

  /** previous_region_covers */
  predicate PreviousCovers(map_: Map, m: nat, previous: int, addr: nat, size: nat)
    requires 0 < m
  {
    0 <= previous < map_.dynamicNum && map_.regions[previous].data.Backed?
      && Covers(map_.regions[previous], m, addr, size)
  }

  /** search_region and search_region_r, each with its own previous_index. */
  function CachedSearch(map_: Map, m: nat, previous: int, addr: nat, size: nat): (hit: Hit)
    requires 0 < m
    ensures hit.Found? ==> hit.index < |map_.regions| && Covers(map_.regions[hit.index], m, addr, size)
  {
    if PreviousCovers(map_, m, previous, addr, size) then Found(previous) else Search(map_, m, addr, size)
  }

  function NextPrevious(map_: Map, m: nat, previous: int, addr: nat, size: nat): (next: int)
    requires 0 < m
  {
    match CachedSearch(map_, m, previous, addr, size)
    case Found(k) => if k < map_.dynamicNum then k else previous
    case Miss => previous
  }

  /** Dynamic regions as the configuration sets them up: unmasked and pairwise disjoint. */
  ghost predicate DisjointDynamic(map_: Map, width: nat) {
    && (forall i :: 0 <= i < map_.dynamicNum ==> Plain(map_.regions[i], Modulus(width)))
    && (forall i, j :: 0 <= i < j < map_.dynamicNum ==>
          map_.regions[i].start + map_.regions[i].size <= map_.regions[j].start
          || map_.regions[j].start + map_.regions[j].size <= map_.regions[i].start)
  }

  /** An access is covered by at most one dynamic region. */
  lemma OneDynamicCovers(map_: Map, width: nat, i: nat, j: nat, addr: nat, size: nat)
    requires DisjointDynamic(map_, width) && addr < Modulus(width) && i <= j < map_.dynamicNum
    requires Covers(map_.regions[i], Modulus(width), addr, size) && Covers(map_.regions[j], Modulus(width), addr, size)
    ensures i == j
  {
    CoveredAddressInside(map_.regions[i], width, addr, size);
    CoveredAddressInside(map_.regions[j], width, addr, size);
  }

  /** With disjoint dynamic regions the cache is invisible, whatever it remembers. */
  lemma CacheIsInvisible(map_: Map, width: nat, previous: int, addr: nat, size: nat)
    requires DisjointDynamic(map_, width) && addr < Modulus(width)
    ensures CachedSearch(map_, Modulus(width), previous, addr, size) == Search(map_, Modulus(width), addr, size)
  {
    var m := Modulus(width);
    if PreviousCovers(map_, m, previous, addr, size) {
      FirstCoverIsFirst(map_.regions, m, addr, size, 0, previous);
      OneDynamicCovers(map_, width, FirstCover(map_.regions, m, addr, size, 0), previous, addr, size);
    }
  }

  /** Whatever the cache remembers, it changes an answer exactly when the remembered region is backed and covers
      the access, and an earlier region covers it too. */
  lemma CacheVisibleIff(map_: Map, m: nat, previous: int, addr: nat, size: nat)
    requires 0 < m
    ensures CachedSearch(map_, m, previous, addr, size) != Search(map_, m, addr, size) <==>
            PreviousCovers(map_, m, previous, addr, size) && FirstCover(map_.regions, m, addr, size, 0) < previous
    ensures CachedSearch(map_, m, previous, addr, size) != Search(map_, m, addr, size) ==>
            CachedSearch(map_, m, previous, addr, size) == Found(previous)
  {
    if PreviousCovers(map_, m, previous, addr, size) {
      FirstCoverIsFirst(map_.regions, m, addr, size, 0, previous);
    }
  }

  /** A configured region that was found is found again at once: the next search of the same access is answered by the
      cache, with the same region.  Any other answer leaves the cache alone. */
  lemma CacheRemembers(map_: Map, m: nat, previous: int, addr: nat, size: nat)
    requires 0 < m
    ensures
      var hit, next := CachedSearch(map_, m, previous, addr, size), NextPrevious(map_, m, previous, addr, size);
      if hit.Found? && hit.index < map_.dynamicNum
      then PreviousCovers(map_, m, next, addr, size) && CachedSearch(map_, m, next, addr, size) == hit
      else next == previous
  {
  }

  // ---- Every sequence of accesses and map changes ----

  datatype Op =
    | Read(addr: nat, size: nat)
    | Write(addr: nat, size: nat)
    | Add(region: Region)
    | Back(index: nat, bytes: seq<byte>)

  /** Regions are appended; a MALLOC region gets its memory when it is first allocated from. */
  function Changed(map_: Map, op: Op): Map {
    match op
    case Add(region) =>
      Map(map_.regions[..map_.dynamicNum] + [region] + map_.regions[map_.dynamicNum..], map_.dynamicNum + 1)
    case Back(i, bytes) =>
      if i < map_.dynamicNum && map_.regions[i].data.Unbacked?
      then map_.(regions := map_.regions[i := map_.regions[i].(data := Backed(bytes))]) else map_
    case _ => map_
  }

  /** An access to a MALLOC region finds nothing until the region gets its memory, and then finds that region. */
  lemma BackingIsSeen(map_: Map, m: nat, i: nat, bytes: seq<byte>, addr: nat, size: nat)
    requires 0 < m && i < map_.dynamicNum && map_.regions[i].data.Unbacked? && Covers(map_.regions[i], m, addr, size)
    requires forall j :: 0 <= j < i ==> !Covers(map_.regions[j], m, addr, size)
    ensures Search(map_, m, addr, size) == Miss
    ensures
      var after := Changed(map_, Back(i, bytes));
      && Search(after, m, addr, size) == Found(i) && after.regions[i].data == Backed(bytes)
      && |after.regions| == |map_.regions|
      && forall k :: 0 <= k < |map_.regions| && k != i ==> after.regions[k] == map_.regions[k]
  {
    FirstCoverIff(map_.regions, m, addr, size, 0, i);
    var after := Changed(map_, Back(i, bytes));
    CoversIgnoresBytes(map_.regions[i], Backed(bytes), m, addr, size);
    SearchFindsIff(after, m, addr, size, i);
  }

  /** An added region comes after the configured ones and before those of the target, in searches as in the map. */
  lemma AddedIsSeen(map_: Map, m: nat, r: Region, addr: nat, size: nat)
    requires 0 < m && r.data.Backed? && Covers(r, m, addr, size)
    requires forall j :: 0 <= j < map_.dynamicNum ==> !Covers(map_.regions[j], m, addr, size)
    ensures
      var after, n := Changed(map_, Add(r)), map_.dynamicNum;
      && Search(after, m, addr, size) == Found(n) && after.dynamicNum == n + 1
      && |after.regions| == |map_.regions| + 1 && after.regions[n] == r
      && (forall k :: 0 <= k < n ==> after.regions[k] == map_.regions[k])
      && (forall k :: n <= k < |map_.regions| ==> after.regions[k + 1] == map_.regions[k])
  {
    SearchFindsIff(Changed(map_, Add(r)), m, addr, size, map_.dynamicNum);
  }

  /** What a run with the two caches answers. */
  function CachedAnswers(map_: Map, m: nat, read: int, write: int, ops: seq<Op>): (hits: seq<Hit>)
    requires 0 < m
    decreases |ops|
  {
    if ops == [] then []
    else
      match ops[0]
      case Read(addr, size) =>
        [CachedSearch(map_, m, read, addr, size)]
        + CachedAnswers(map_, m, NextPrevious(map_, m, read, addr, size), write, ops[1..])
      case Write(addr, size) =>
        [CachedSearch(map_, m, write, addr, size)]
        + CachedAnswers(map_, m, read, NextPrevious(map_, m, write, addr, size), ops[1..])
      case _ => CachedAnswers(Changed(map_, ops[0]), m, read, write, ops[1..])
  }

  function Answers(map_: Map, m: nat, ops: seq<Op>): (hits: seq<Hit>)
    requires 0 < m
    decreases |ops|
  {
    if ops == [] then []
    else
      match ops[0]
      case Read(addr, size) => [Search(map_, m, addr, size)] + Answers(map_, m, ops[1..])
      case Write(addr, size) => [Search(map_, m, addr, size)] + Answers(map_, m, ops[1..])
      case _ => Answers(Changed(map_, ops[0]), m, ops[1..])
  }

  ghost predicate StaysDisjoint(map_: Map, width: nat, ops: seq<Op>)
    decreases |ops|
  {
    && DisjointDynamic(map_, width)
    && (|ops| > 0 ==>
          && (ops[0].Read? || ops[0].Write? ==> ops[0].addr < Modulus(width))
          && StaysDisjoint(Changed(map_, ops[0]), width, ops[1..]))
  }

  /** Over every sequence of reads, writes, region additions and lazy backings, the cached searches
      answer as the uncached ones. */
  lemma {:induction false} CachedRunIsUncachedRun(map_: Map, width: nat, read: int, write: int, ops: seq<Op>)
    requires StaysDisjoint(map_, width, ops)
    ensures CachedAnswers(map_, Modulus(width), read, write, ops) == Answers(map_, Modulus(width), ops)
    decreases |ops|
  {
    var m := Modulus(width);
    if ops != [] {
      match ops[0]
      case Read(addr, size) =>
        CacheIsInvisible(map_, width, read, addr, size);
        CachedRunIsUncachedRun(map_, width, NextPrevious(map_, m, read, addr, size), write, ops[1..]);
      case Write(addr, size) =>
        CacheIsInvisible(map_, width, write, addr, size);
        CachedRunIsUncachedRun(map_, width, read, NextPrevious(map_, m, write, addr, size), ops[1..]);
      case _ => CachedRunIsUncachedRun(Changed(map_, ops[0]), width, read, write, ops[1..]);
    }
  }

  // ---- Bytes ----

  /** CPU_HAS_PERMISSION: region kind, whether it is a write, address, size. */
  type Permission = (Kind, bool, nat, nat) -> bool

  datatype Load = Fault | Loaded(value: byte)

  ghost predicate RegionOk(r: Region) {
    r.data.Backed? ==> |r.data.bytes| == r.size
  }

  ghost predicate MapOk(map_: Map) {
    forall i :: 0 <= i < |map_.regions| ==> RegionOk(map_.regions[i])
  }

  ghost predicate InMap(map_: Map, m: nat) {
    forall i :: 0 <= i < |map_.regions| ==> map_.regions[i].start < m && map_.regions[i].size < m
  }

  /** A search result for an access: nothing, or a region that covers it. */
  predicate HitFor(map_: Map, m: nat, addr: nat, size: nat, hit: Hit)
    requires 0 < m
  {
    hit.Found? ==> hit.index < |map_.regions| && Covers(map_.regions[hit.index], m, addr, size)
  }

  /** The byte in the memory behind a region. */
  function Behind(r: Region, m: nat, addr: nat): Load
    requires 0 < m && RegionOk(r) && Covers(r, m, addr, 1)
  {
    if r.data.Backed? then Loaded(r.data.bytes[And(addr, r.mask) - r.start]) else Fault
  }

  /** memory_get_data8, behind the checks of mpu_get_data8; a device's own operation is not part of this
      model. */
  function ByteOf(r: Region, m: nat, allowed: Permission, addr: nat): Load
    requires 0 < m && RegionOk(r) && Covers(r, m, addr, 1)
  {
    if r.defaultOps && allowed(r.kind, false, addr, 1) then Behind(r, m, addr) else Fault
  }

  /** mpu_get_data8 once the search has answered. */
  function ReadThrough(map_: Map, m: nat, allowed: Permission, addr: nat, hit: Hit): Load
    requires 0 < m && MapOk(map_) && HitFor(map_, m, addr, 1, hit)
  {
    match hit
    case Miss => Fault
    case Found(i) =>
      assert RegionOk(map_.regions[i]);
      ByteOf(map_.regions[i], m, allowed, addr)
  }

  /** mpu_get_data8 with `previous` in the read cache (-1: empty). */
  function BusRead(map_: Map, m: nat, allowed: Permission, previous: int, addr: nat): Load
    requires 0 < m && MapOk(map_)
  {
    ReadThrough(map_, m, allowed, addr, CachedSearch(map_, m, previous, addr, 1))
  }

  /** A bus read succeeds exactly when the search finds a region with plain operations and memory and the CPU may read
      there, and then it returns the byte at the masked address. */
  lemma BusReadSucceedsIff(map_: Map, m: nat, allowed: Permission, previous: int, addr: nat)
    requires 0 < m && MapOk(map_)
    ensures
      var hit := CachedSearch(map_, m, previous, addr, 1);
      && (BusRead(map_, m, allowed, previous, addr).Loaded? <==>
          && hit.Found? && map_.regions[hit.index].defaultOps && map_.regions[hit.index].data.Backed?
          && allowed(map_.regions[hit.index].kind, false, addr, 1))
      && (BusRead(map_, m, allowed, previous, addr).Loaded? ==>
          var r := map_.regions[hit.index];
          && 0 <= And(addr, r.mask) - r.start < |r.data.bytes|
          && BusRead(map_, m, allowed, previous, addr).value == r.data.bytes[And(addr, r.mask) - r.start])
  {
    var hit := CachedSearch(map_, m, previous, addr, 1);
    if hit.Found? {
      assert RegionOk(map_.regions[hit.index]);
    }
  }

  // ---- Host windows ----

  /** mpu_get_host_memory: nothing, the empty range, or a position in one region's bytes. */
  datatype Window = NoWindow | Empty | Window(index: nat, offset: int)

  /** mpu_get_host_memory once its search has answered. */
  function HostMemory(map_: Map, m: nat, allowed: Permission, addr: nat, size: nat, write: bool, hit: Hit): Window
    requires 0 < m && HitFor(map_, m, addr, size, hit)
  {
    if size == 0 then Empty
    else if Wrap(addr + size, m) < addr then NoWindow
    else
      match hit
      case Miss => NoWindow
      case Found(i) =>
        var r := map_.regions[i];
        if r.data.Unbacked? || !r.defaultOps || r.mask != m - 1
           || (r.kind != GlobalMemory && r.kind != ReadonlyMemory) || (write && r.kind != GlobalMemory)
           || !allowed(r.kind, write, addr, size)
        then NoWindow else Window(i, addr - r.start)
  }

  /** A nonempty range that is accepted lies inside one plain-memory region in true integers, a
      window for writing is never in ROM, and the window's bytes all exist. */
  lemma HostWindowSound(map_: Map, width: nat, allowed: Permission, addr: nat, size: nat, write: bool, hit: Hit)
    requires MapOk(map_) && InMap(map_, Modulus(width)) && addr < Modulus(width) && size < Modulus(width)
    requires HitFor(map_, Modulus(width), addr, size, hit)
    requires HostMemory(map_, Modulus(width), allowed, addr, size, write, hit).Window?
    ensures
      var w := HostMemory(map_, Modulus(width), allowed, addr, size, write, hit);
      && 0 < size && hit == Found(w.index) && w.index < |map_.regions|
      && var r := map_.regions[w.index];
         && r.start <= addr && addr + size <= r.start + r.size < Modulus(width)
         && r.defaultOps && (r.kind == GlobalMemory || (r.kind == ReadonlyMemory && !write))
         && r.data.Backed? && 0 <= w.offset && w.offset + size <= |r.data.bytes| && w.offset == addr - r.start
         && Plain(r, Modulus(width)) && allowed(r.kind, write, addr, size)
  {
    var i := hit.index;
    assert RegionOk(map_.regions[i]);
    CoversIffInside(map_.regions[i], width, addr, size);
  }

  /** The region is memory that a host function may use directly. */
  predicate Lends(r: Region, m: nat, allowed: Permission, addr: nat, size: nat, write: bool) {
    && r.data.Backed? && r.defaultOps && r.mask == m - 1 && allowed(r.kind, write, addr, size)
    && (r.kind == GlobalMemory || (r.kind == ReadonlyMemory && !write))
  }

  /** Exactly when there is a window: the range is not empty and ends below the top of the address space, and the search
      finds backed, unmasked, plain memory (RAM, or ROM for reading) that the CPU may use.  Its offset is the distance
      from the region's start. */
  lemma WindowIff(map_: Map, m: nat, allowed: Permission, addr: nat, size: nat, write: bool, hit: Hit)
    requires addr < m && size < m && HitFor(map_, m, addr, size, hit)
    ensures
      var w := HostMemory(map_, m, allowed, addr, size, write, hit);
      && (w == Empty <==> size == 0)
      && (w.Window? <==>
          && 0 < size && addr + size < m && hit.Found?
          && Lends(map_.regions[hit.index], m, allowed, addr, size, write))
      && (w.Window? ==> w == Window(hit.index, addr - map_.regions[hit.index].start))
  {
    if addr + size >= m {
      assert Wrap(addr + size, m) == Wrap(addr + size - m, m);
    }
  }

  /** `b` is a byte of plain memory in region `i`. */
  ghost predicate InMemory(map_: Map, width: nat, i: nat, b: nat) {
    match map_
    case Map(regions, _) =>
      && i < |regions| && Plain(regions[i], Modulus(width)) && regions[i].data.Backed? && RegionOk(regions[i])
      && regions[i].start <= b < regions[i].start + regions[i].size < Modulus(width)
  }

  /** No region before `i` covers the byte. */
  ghost predicate NoEarlier(map_: Map, m: nat, i: nat, b: nat)
    requires 0 < m && i <= |map_.regions|
  {
    forall k :: 0 <= k < i ==> !Covers(map_.regions[k], m, b, 1)
  }

  lemma MemoryIsCovered(map_: Map, width: nat, i: nat, b: nat)
    requires InMemory(map_, width, i, b)
    ensures Covers(map_.regions[i], Modulus(width), b, 1) && And(b, map_.regions[i].mask) == b
  {
    CoversIffInside(map_.regions[i], width, b, 1);
    MaskAll(b, width);
  }

  lemma {:induction false} FirstCoverIff(regions: seq<Region>, m: nat, addr: nat, size: nat, j: nat, i: nat)
    requires 0 < m && j <= i < |regions| && Covers(regions[i], m, addr, size)
    ensures FirstCover(regions, m, addr, size, j) == i <==>
            forall k :: j <= k < i ==> !Covers(regions[k], m, addr, size)
    decreases i - j
  {
    if j < i && !Covers(regions[j], m, addr, size) {
      FirstCoverIff(regions, m, addr, size, j + 1, i);
    }
  }

  /** Exactly when a bus read of a byte in region `i` goes to that region: the remembered region is `i` itself, or
      it does not cover the byte and no earlier region does. */
  lemma BusReadGoesIff(map_: Map, width: nat, previous: int, i: nat, b: nat)
    requires InMemory(map_, width, i, b)
    ensures CachedSearch(map_, Modulus(width), previous, b, 1) == Found(i) <==>
            if PreviousCovers(map_, Modulus(width), previous, b, 1) then previous == i
            else NoEarlier(map_, Modulus(width), i, b)
  {
    MemoryIsCovered(map_, width, i, b);
    FirstCoverIff(map_.regions, Modulus(width), b, 1, 0, i);
  }

  /** Every byte of a range in region `i` is read from that region, the cache being empty, exactly when no earlier
      region covers any of them. */
  lemma RangeIsBusIff(map_: Map, width: nat, i: nat, addr: nat, size: nat)
    requires forall b :: addr <= b < addr + size ==> InMemory(map_, width, i, b)
    requires i <= |map_.regions|
    ensures (forall b :: addr <= b < addr + size ==> Search(map_, Modulus(width), b, 1) == Found(i)) <==>
            (forall b :: addr <= b < addr + size ==> NoEarlier(map_, Modulus(width), i, b))
  {
    forall b | addr <= b < addr + size
      ensures Search(map_, Modulus(width), b, 1) == Found(i) <==> NoEarlier(map_, Modulus(width), i, b)
    {
      BusReadGoesIff(map_, width, -1, i, b);
    }
  }

  /** A read that goes to region `i` returns the byte of its memory. */
  lemma ReadInMemory(map_: Map, width: nat, allowed: Permission, i: nat, b: nat)
    requires MapOk(map_) && InMemory(map_, width, i, b)
    requires map_.regions[i].defaultOps && allowed(map_.regions[i].kind, false, b, 1)
    ensures HitFor(map_, Modulus(width), b, 1, Found(i))
    ensures ReadThrough(map_, Modulus(width), allowed, b, Found(i)) ==
            Loaded(map_.regions[i].data.bytes[b - map_.regions[i].start])
  {
    MemoryIsCovered(map_, width, i, b);
  }

  /** The bytes of a window. */
  function WindowBytes(map_: Map, w: Window, size: nat): (buffer: seq<byte>)
    requires w.Window? && w.index < |map_.regions| && map_.regions[w.index].data.Backed?
    requires 0 <= w.offset && w.offset + size <= |map_.regions[w.index].data.bytes|
    ensures |buffer| == size
  {
    map_.regions[w.index].data.bytes[w.offset..w.offset + size]
  }

  /** Every permitted 8-bit bus read of the range that goes to region `i` returns the byte of `buffer`, whatever the
      read cache holds. */
  ghost predicate AgreesWithBus(map_: Map, m: nat, allowed: Permission, i: nat, addr: nat, buffer: seq<byte>)
    requires 0 < m && MapOk(map_)
  {
    forall previous: int, b: nat {:trigger CachedSearch(map_, m, previous, b, 1)} ::
      (&& addr <= b < addr + |buffer| && CachedSearch(map_, m, previous, b, 1) == Found(i)
       && allowed(map_.regions[i].kind, false, b, 1)) ==>
      BusRead(map_, m, allowed, previous, b) == Loaded(buffer[b - addr])
  }

  lemma WindowAgrees(map_: Map, width: nat, allowed: Permission, w: Window, addr: nat, size: nat)
    requires MapOk(map_) && w.Window? && w.index < |map_.regions| && Plain(map_.regions[w.index], Modulus(width))
    requires
      var r := map_.regions[w.index];
      && r.defaultOps && r.data.Backed?
      && r.start <= addr && addr + size <= r.start + r.size < Modulus(width) && w.offset == addr - r.start
      && w.offset + size <= |r.data.bytes|
    ensures AgreesWithBus(map_, Modulus(width), allowed, w.index, addr, WindowBytes(map_, w, size))
  {
    var m, buffer := Modulus(width), WindowBytes(map_, w, size);
    forall previous: int, b: nat {:trigger CachedSearch(map_, m, previous, b, 1)} |
      && addr <= b < addr + |buffer| && CachedSearch(map_, m, previous, b, 1) == Found(w.index)
      && allowed(map_.regions[w.index].kind, false, b, 1)
      ensures BusRead(map_, m, allowed, previous, b) == Loaded(buffer[b - addr])
    {
      assert RegionOk(map_.regions[w.index]);
      ReadInMemory(map_, width, allowed, w.index, b);
    }
  }

  /** The bytes a host function copies out of a window are what 8-bit bus reads of its region return, on every
      map; `BusReadGoesIff` says exactly which reads go there. */
  lemma HostReadIsBusRead(map_: Map, width: nat, allowed: Permission, addr: nat, size: nat, hit: Hit)
    requires MapOk(map_) && InMap(map_, Modulus(width)) && addr < Modulus(width) && size < Modulus(width)
    requires HitFor(map_, Modulus(width), addr, size, hit)
    requires HostMemory(map_, Modulus(width), allowed, addr, size, false, hit).Window?
    ensures
      var w := HostMemory(map_, Modulus(width), allowed, addr, size, false, hit);
      && w.index < |map_.regions| && map_.regions[w.index].data.Backed?
      && 0 <= w.offset && w.offset + size <= |map_.regions[w.index].data.bytes|
      && AgreesWithBus(map_, Modulus(width), allowed, w.index, addr, WindowBytes(map_, w, size))
  {
    HostWindowSound(map_, width, allowed, addr, size, false, hit);
    var w := HostMemory(map_, Modulus(width), allowed, addr, size, false, hit);
    WindowAgrees(map_, width, allowed, w, addr, size);
  }

  // ---- Writing through a window ----

  function Spliced(bytes: seq<byte>, offset: nat, buffer: seq<byte>): (r: seq<byte>)
    requires offset + |buffer| <= |bytes|
    ensures |r| == |bytes|
    ensures forall k :: 0 <= k < |r| ==>
            r[k] == if offset <= k < offset + |buffer| then buffer[k - offset] else bytes[k]
  {
    bytes[..offset] + buffer + bytes[offset + |buffer|..]
  }

  /** memcpy of `buffer` to the window. */
  function WriteWindow(map_: Map, w: Window, buffer: seq<byte>): Map
    requires w.Window? && w.index < |map_.regions| && map_.regions[w.index].data.Backed?
    requires 0 <= w.offset && w.offset + |buffer| <= |map_.regions[w.index].data.bytes|
  {
    var r := map_.regions[w.index];
    map_.(regions := map_.regions[w.index := r.(data := Backed(Spliced(r.data.bytes, w.offset, buffer)))])
  }

  /** The same regions, up to the bytes behind them. */
  ghost predicate SameLayout(a: Map, b: Map) {
    && |a.regions| == |b.regions| && a.dynamicNum == b.dynamicNum
    && forall k :: 0 <= k < |a.regions| ==>
         b.regions[k] == a.regions[k].(data := b.regions[k].data)
           && (a.regions[k].data.Backed? <==> b.regions[k].data.Backed?)
  }

  lemma CoversIgnoresBytes(r: Region, data: Backing, m: nat, addr: nat, size: nat)
    requires 0 < m
    ensures Covers(r.(data := data), m, addr, size) == Covers(r, m, addr, size)
  {
  }

  lemma {:induction false} SameCover(a: Map, b: Map, m: nat, addr: nat, size: nat, i: nat)
    requires 0 < m && SameLayout(a, b) && i <= |a.regions|
    ensures FirstCover(a.regions, m, addr, size, i) == FirstCover(b.regions, m, addr, size, i)
    decreases |a.regions| - i
  {
    if i < |a.regions| {
      CoversIgnoresBytes(a.regions[i], b.regions[i].data, m, addr, size);
      SameCover(a, b, m, addr, size, i + 1);
    }
  }

  /** Searches, cached or not, do not depend on the bytes. */
  lemma SearchIgnoresBytes(a: Map, b: Map, m: nat, previous: int, addr: nat, size: nat)
    requires 0 < m && SameLayout(a, b)
    ensures CachedSearch(a, m, previous, addr, size) == CachedSearch(b, m, previous, addr, size)
    ensures Search(a, m, addr, size) == Search(b, m, addr, size)
  {
    SameCover(a, b, m, addr, size, 0);
    if 0 <= previous < a.dynamicNum {
      CoversIgnoresBytes(a.regions[previous], b.regions[previous].data, m, addr, size);
    }
  }

  lemma WriteKeepsMap(map_: Map, w: Window, buffer: seq<byte>, m: nat)
    requires MapOk(map_) && InMap(map_, m) && w.Window? && w.index < |map_.regions|
    requires map_.regions[w.index].data.Backed?
    requires 0 <= w.offset && w.offset + |buffer| <= |map_.regions[w.index].data.bytes|
    ensures MapOk(WriteWindow(map_, w, buffer)) && InMap(WriteWindow(map_, w, buffer), m)
    ensures SameLayout(map_, WriteWindow(map_, w, buffer))
  {
    var t := WriteWindow(map_, w, buffer);
    forall i | 0 <= i < |t.regions|
      ensures RegionOk(t.regions[i])
    {
      assert RegionOk(map_.regions[i]);
    }
  }

  /** `b` lies in the `n` bytes of region `i` from `offset` on. */
  predicate InRange(map_: Map, i: nat, offset: nat, n: nat, b: nat)
    requires i < |map_.regions|
  {
    map_.regions[i].start + offset <= b < map_.regions[i].start + offset + n
  }

  lemma SplicedBehind(r: Region, width: nat, offset: nat, buffer: seq<byte>, b: nat)
    requires RegionOk(r) && r.data.Backed? && offset + |buffer| <= |r.data.bytes| && Plain(r, Modulus(width))
    requires b < Modulus(width) && Covers(r, Modulus(width), b, 1)
    ensures
      var after := r.(data := Backed(Spliced(r.data.bytes, offset, buffer)));
      && Covers(after, Modulus(width), b, 1)
      && Behind(after, Modulus(width), b) ==
         if r.start + offset <= b < r.start + offset + |buffer| then Loaded(buffer[b - r.start - offset])
         else Behind(r, Modulus(width), b)
  {
    MaskAll(b, width);
    CoversIgnoresBytes(r, Backed(Spliced(r.data.bytes, offset, buffer)), Modulus(width), b, 1);
  }

  /** Writing into region `i` changes exactly the reads that go there, for any search result. */
  lemma WriteChangesReads(map_: Map, width: nat, allowed: Permission, i: nat, offset: nat, buffer: seq<byte>, b: nat,
                          hit: Hit)
    requires MapOk(map_) && i < |map_.regions| && map_.regions[i].data.Backed? && Plain(map_.regions[i], Modulus(width))
    requires offset + |buffer| <= |map_.regions[i].data.bytes| && b < Modulus(width)
    requires HitFor(map_, Modulus(width), b, 1, hit)
    requires MapOk(WriteWindow(map_, Window(i, offset), buffer))
    ensures
      var after := WriteWindow(map_, Window(i, offset), buffer);
      var before := ReadThrough(map_, Modulus(width), allowed, b, hit);
      && HitFor(after, Modulus(width), b, 1, hit)
      && ReadThrough(after, Modulus(width), allowed, b, hit) ==
         if hit == Found(i) && InRange(map_, i, offset, |buffer|, b) && before.Loaded?
         then Loaded(buffer[b - map_.regions[i].start - offset]) else before
  {
    if hit == Found(i) {
      assert RegionOk(map_.regions[i]);
      SplicedBehind(map_.regions[i], width, offset, buffer, b);
    }
  }

  /** After writing `buffer` at `addr` into region `i`, a bus read returns the byte of the buffer if it goes to that
      region and lies in the range, and what it returned before otherwise; for every state of the read cache. */
  ghost predicate WroteThrough(before: Map, after: Map, m: nat, allowed: Permission, i: nat, addr: nat,
                               buffer: seq<byte>)
    requires 0 < m && MapOk(before) && MapOk(after)
  {
    forall previous: int, b: nat {:trigger BusRead(after, m, allowed, previous, b)} :: b < m ==>
      BusRead(after, m, allowed, previous, b) ==
      if addr <= b < addr + |buffer| && CachedSearch(before, m, previous, b, 1) == Found(i)
         && BusRead(before, m, allowed, previous, b).Loaded?
      then Loaded(buffer[b - addr]) else BusRead(before, m, allowed, previous, b)
  }

  lemma WriteThenBusRead(map_: Map, width: nat, allowed: Permission, w: Window, addr: nat, buffer: seq<byte>)
    requires MapOk(map_) && w.Window? && w.index < |map_.regions| && Plain(map_.regions[w.index], Modulus(width))
    requires map_.regions[w.index].data.Backed? && w.offset == addr - map_.regions[w.index].start
    requires 0 <= w.offset && w.offset + |buffer| <= |map_.regions[w.index].data.bytes|
    requires MapOk(WriteWindow(map_, w, buffer)) && SameLayout(map_, WriteWindow(map_, w, buffer))
    ensures WroteThrough(map_, WriteWindow(map_, w, buffer), Modulus(width), allowed, w.index, addr, buffer)
  {
    var m, after := Modulus(width), WriteWindow(map_, w, buffer);
    forall previous: int, b: nat {:trigger BusRead(after, m, allowed, previous, b)} | b < m
      ensures BusRead(after, m, allowed, previous, b) ==
        if addr <= b < addr + |buffer| && CachedSearch(map_, m, previous, b, 1) == Found(w.index)
           && BusRead(map_, m, allowed, previous, b).Loaded?
        then Loaded(buffer[b - addr]) else BusRead(map_, m, allowed, previous, b)
    {
      SearchIgnoresBytes(map_, after, m, previous, b, 1);
      WriteChangesReads(map_, width, allowed, w.index, w.offset, buffer, b, CachedSearch(map_, m, previous, b, 1));
    }
  }

  /** What a host write does to every later bus read, on every map. */
  lemma HostWriteThenBusRead(map_: Map, width: nat, allowed: Permission, addr: nat, buffer: seq<byte>, hit: Hit)
    requires MapOk(map_) && InMap(map_, Modulus(width)) && addr < Modulus(width) && |buffer| < Modulus(width)
    requires HitFor(map_, Modulus(width), addr, |buffer|, hit)
    requires HostMemory(map_, Modulus(width), allowed, addr, |buffer|, true, hit).Window?
    ensures
      var w := HostMemory(map_, Modulus(width), allowed, addr, |buffer|, true, hit);
      && w.index < |map_.regions| && map_.regions[w.index].data.Backed?
      && 0 <= w.offset && w.offset + |buffer| <= |map_.regions[w.index].data.bytes|
      && var after := WriteWindow(map_, w, buffer);
         && MapOk(after) && InMap(after, Modulus(width)) && SameLayout(map_, after)
         && WroteThrough(map_, after, Modulus(width), allowed, w.index, addr, buffer)
  {
    HostWindowSound(map_, width, allowed, addr, |buffer|, true, hit);
    var w := HostMemory(map_, Modulus(width), allowed, addr, |buffer|, true, hit);
    WriteKeepsMap(map_, w, buffer, Modulus(width));
    WriteThenBusRead(map_, width, allowed, w, addr, buffer);
  }

  // ---- Overlapping regions ----

  function Filled(n: nat, x: byte): (bytes: seq<byte>)
    ensures |bytes| == n && forall k :: 0 <= k < n ==> bytes[k] == x
  {
    seq(n, _ => x)
  }

  /** Two RAM regions as mpu_address_set_rom_ram allows them: the second is not wholly inside the first. */
  function Overlapping(m: nat): Map
    requires 0 < m
  {
    Map([Region(GlobalMemory, 0, 10, m - 1, Backed(Filled(10, 1)), true, false),
         Region(GlobalMemory, 5, 15, m - 1, Backed(Filled(15, 2)), true, false)], 2)
  }

  lemma OverlappingCovers(width: nat, addr: nat, size: nat)
    requires 5 <= width && 0 < size && addr + size <= 20
    ensures 20 < Modulus(width) && MapOk(Overlapping(Modulus(width)))
    ensures Covers(Overlapping(Modulus(width)).regions[0], Modulus(width), addr, size) <==> addr + size <= 10
    ensures Covers(Overlapping(Modulus(width)).regions[1], Modulus(width), addr, size) <==> 5 <= addr
  {
    assert Modulus(width) >= 32 by {
      WideEnough(width);
    }
    CoversIffInside(Overlapping(Modulus(width)).regions[0], width, addr, size);
    CoversIffInside(Overlapping(Modulus(width)).regions[1], width, addr, size);
  }

  lemma {:induction false} WideEnough(width: nat)
    requires 5 <= width
    ensures 32 <= Modulus(width)
  {
    if width == 5 {
      assert Modulus(2) == 4 && Modulus(4) == 4 * Modulus(2);
    } else {
      WideEnough(width - 1);
    }
  }

  /** On that map the window at 5 is in the second region and holds a 2, where a bus read with an empty cache
      returns the 1 of the first; and an access at 15 changes the answer to the next search at 5. */
  lemma OverlapSplitsReads(width: nat, allowed: Permission)
    requires 5 <= width && allowed(GlobalMemory, false, 5, 10) && allowed(GlobalMemory, false, 5, 1)
    ensures
      var m := Modulus(width);
      var map_ := Overlapping(m);
      && MapOk(map_) && HostMemory(map_, m, allowed, 5, 10, false, Search(map_, m, 5, 10)) == Window(1, 0)
      && map_.regions[1].data.bytes[0] == 2 && BusRead(map_, m, allowed, -1, 5) == Loaded(1)
      && NextPrevious(map_, m, -1, 15, 1) == 1
      && CachedSearch(map_, m, 1, 5, 1) == Found(1) && Search(map_, m, 5, 1) == Found(0)
  {
    OverlappingCovers(width, 5, 10);
    OverlappingCovers(width, 5, 1);
    OverlappingCovers(width, 15, 1);
    MaskAll(5, width);
    var m, regions := Modulus(width), Overlapping(Modulus(width)).regions;
    assert FirstCover(regions, m, 5, 10, 0) == FirstCover(regions, m, 5, 10, 1) == 1;
    assert FirstCover(regions, m, 15, 1, 0) == FirstCover(regions, m, 15, 1, 1) == 1;
    assert FirstCover(regions, m, 5, 1, 0) == 0;
    assert Wrap(15, m) == 15;
  }

  /** checked_address: a 64-bit host address and a 32-bit size fit the guest address space. */
  predicate CheckedAddress(address: nat, size: nat, m: nat) {
    !(address > m - 1 || (size != 0 && address > (m - 1) - (size - 1)))
  }

  lemma CheckedAddressIff(address: nat, size: nat, m: nat)
    requires 0 < m && size <= m
    ensures CheckedAddress(address, size, m) <==> address < m && address + size <= m
  {
  }

  // ---- Maps without overlaps ----

  /** No byte address is covered by two regions. */
  ghost predicate OneCover(map_: Map, m: nat)
    requires 0 < m
  {
    forall a: nat, i, j ::
      (0 <= i < |map_.regions| && 0 <= j < |map_.regions| && Covers(map_.regions[i], m, a, 1)
        && Covers(map_.regions[j], m, a, 1))
      ==> i == j
  }

  /** There, every bus read of a byte in a region goes to that region, whatever the cache holds. */
  lemma OneCoverReadsAgree(map_: Map, width: nat, previous: int, i: nat, b: nat)
    requires OneCover(map_, Modulus(width)) && InMemory(map_, width, i, b)
    ensures CachedSearch(map_, Modulus(width), previous, b, 1) == Found(i)
    ensures Search(map_, Modulus(width), b, 1) == Found(i)
  {
    MemoryIsCovered(map_, width, i, b);
    BusReadGoesIff(map_, width, previous, i, b);
    BusReadGoesIff(map_, width, -1, i, b);
  }

  // ---- The searches as loops, and host calls ----

  /** The two search loops, over the dynamic regions and then over the others. */
  method FindFrom(map_: Map, m: nat, addr: nat, size: nat) returns (i: nat)
    requires 0 < m
    ensures i == FirstCover(map_.regions, m, addr, size, 0)
  {
    i := 0;
    while i < map_.dynamicNum
      invariant i <= map_.dynamicNum
                && FirstCover(map_.regions, m, addr, size, 0) == FirstCover(map_.regions, m, addr, size, i)
    {
      if Covers(map_.regions[i], m, addr, size) {
        return i;
      }
      i := i + 1;
    }
    while i < |map_.regions|
      invariant i <= |map_.regions|
                && FirstCover(map_.regions, m, addr, size, 0) == FirstCover(map_.regions, m, addr, size, i)
    {
      if Covers(map_.regions[i], m, addr, size) {
        return i;
      }
      i := i + 1;
    }
  }

  class AddressMap {
    const width: nat
    var map_: Map
    var previousRead: int
    var previousWrite: int

    constructor (width: nat, map_: Map)
      ensures this.width == width && this.map_ == map_ && previousRead == previousWrite == -1
    {
      this.width, this.map_ := width, map_;
      previousRead, previousWrite := -1, -1;
    }

    /** search_region_r when `read`, search_region otherwise: same code, separate caches. */
    method SearchRegion(read: bool, addr: nat, size: nat) returns (hit: Hit)
      modifies `previousRead, `previousWrite
      ensures
        var previous := if read then old(previousRead) else old(previousWrite);
        var next := NextPrevious(map_, Modulus(width), previous, addr, size);
        && hit == CachedSearch(map_, Modulus(width), previous, addr, size)
        && previousRead == (if read then next else old(previousRead))
        && previousWrite == (if read then old(previousWrite) else next)
    {
      var m := Modulus(width);
      var previous := if read then previousRead else previousWrite;
      if 0 <= previous < map_.dynamicNum && map_.regions[previous].data.Backed?
        && Covers(map_.regions[previous], m, addr, size) {
        return Found(previous);
      }
      var i := FindFrom(map_, m, addr, size);
      if i == |map_.regions| {
        return Miss;
      }
      if i < map_.dynamicNum {
        if map_.regions[i].data.Unbacked? {
          return Miss;
        }
        if read {
          previousRead := i;
        } else {
          previousWrite := i;
        }
      }
      return Found(i);
    }

    /** What the cached search of mpu_get_host_memory answers. */
    ghost function HostHit(addr: nat, size: nat): (hit: Hit)
      reads this
      ensures HitFor(map_, Modulus(width), addr, size, hit)
    {
      CachedSearch(map_, Modulus(width), previousWrite, addr, size)
    }

    /** mpu_get_host_memory */
    method GetHostMemory(allowed: Permission, addr: nat, size: nat, write: bool) returns (w: Window)
      modifies `previousRead, `previousWrite
      ensures w == HostMemory(map_, Modulus(width), allowed, addr, size, write, old(HostHit(addr, size)))
      ensures previousRead == old(previousRead)
      ensures previousWrite == if size == 0 || Wrap(addr + size, Modulus(width)) < addr then old(previousWrite)
                               else NextPrevious(map_, Modulus(width), old(previousWrite), addr, size)
    {
      if size == 0 {
        return Empty;
      }
      var m := Modulus(width);
      if Wrap(addr + size, m) < addr {
        return NoWindow;
      }
      var hit := SearchRegion(false, addr, size);
      if hit.Miss? {
        return NoWindow;
      }
      var r := map_.regions[hit.index];
      if r.data.Unbacked? || !r.defaultOps || r.mask != m - 1 || (r.kind != GlobalMemory && r.kind != ReadonlyMemory)
         || (write && r.kind != GlobalMemory) || !allowed(r.kind, write, addr, size) {
        return NoWindow;
      }
      return Window(hit.index, addr - r.start);
    }
  }

  /** The memory callbacks of one host call (HostCallContext): any failure is remembered. */
  class HostCall {
    const mpu: AddressMap
    const allowed: Permission
    var failed: bool

    constructor (mpu: AddressMap, allowed: Permission)
      ensures this.mpu == mpu && this.allowed == allowed && !failed
    {
      this.mpu, this.allowed, failed := mpu, allowed, false;
    }

    /** The call gets at its range: nothing to do, or plain memory that the CPU may use, below the top address. */
    ghost predicate Granted(address: nat, size: nat, write: bool)
      reads this, mpu
    {
      && address < Modulus(mpu.width)
      && (size == 0 ||
          (&& address + size < Modulus(mpu.width)
           && match mpu.HostHit(address, size)
              case Miss => false
              case Found(i) => Lends(mpu.map_.regions[i], Modulus(mpu.width), allowed, address, size, write)))
    }

    /** host_call_read: on every map, it succeeds exactly when the range is granted, and the bytes are those that bus
        reads of the region found return. */
    method Read(address: nat, size: nat) returns (ok: bool, buffer: seq<byte>)
      requires MapOk(mpu.map_) && InMap(mpu.map_, Modulus(mpu.width)) && size < Modulus(mpu.width)
      modifies this, mpu`previousRead, mpu`previousWrite
      ensures mpu.map_ == old(mpu.map_) && failed == (old(failed) || !ok)
      ensures ok <==> old(Granted(address, size, false))
      ensures ok ==> |buffer| == size
      ensures ok && 0 < size ==>
                && old(mpu.HostHit(address, size)).Found?
                && AgreesWithBus(mpu.map_, Modulus(mpu.width), allowed, old(mpu.HostHit(address, size)).index, address,
                                 buffer)
    {
      ok, buffer := CheckedAddress(address, size, Modulus(mpu.width)), [];
      if ok {
        ghost var hit := mpu.HostHit(address, size);
        WindowIff(mpu.map_, Modulus(mpu.width), allowed, address, size, false, hit);
        var w := mpu.GetHostMemory(allowed, address, size, false);
        ok := !w.NoWindow?;
        if w.Window? {
          HostReadIsBusRead(mpu.map_, mpu.width, allowed, address, size, hit);
          buffer := WindowBytes(mpu.map_, w, size);
        }
      }
      if !ok {
        failed := true;
      }
    }

    /** host_call_write: likewise; a refused or empty write changes nothing. */
    method Write(address: nat, buffer: seq<byte>) returns (ok: bool)
      requires MapOk(mpu.map_) && InMap(mpu.map_, Modulus(mpu.width)) && |buffer| < Modulus(mpu.width)
      modifies this, mpu
      ensures MapOk(mpu.map_) && InMap(mpu.map_, Modulus(mpu.width)) && SameLayout(old(mpu.map_), mpu.map_)
      ensures failed == (old(failed) || !ok)
      ensures ok <==> old(Granted(address, |buffer|, true))
      ensures !ok || buffer == [] ==> mpu.map_ == old(mpu.map_)
      ensures ok && buffer != [] ==>
                && old(mpu.HostHit(address, |buffer|)).Found?
                && WroteThrough(old(mpu.map_), mpu.map_, Modulus(mpu.width), allowed,
                                old(mpu.HostHit(address, |buffer|)).index, address, buffer)
    {
      ok := CheckedAddress(address, |buffer|, Modulus(mpu.width));
      if ok {
        ghost var hit, before := mpu.HostHit(address, |buffer|), mpu.map_;
        WindowIff(before, Modulus(mpu.width), allowed, address, |buffer|, true, hit);
        var w := mpu.GetHostMemory(allowed, address, |buffer|, true);
        ok := !w.NoWindow?;
        if w.Window? {
          HostWriteThenBusRead(before, mpu.width, allowed, address, buffer, hit);
          mpu.map_ := WriteWindow(mpu.map_, w, buffer);
        }
      }
      if !ok {
        failed := true;
      }
    }
  }
}
