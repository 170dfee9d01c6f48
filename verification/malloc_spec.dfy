/**
  The guest allocator of src/device/mpu/mpu_malloc.c on values: ten size classes, one unit of
  1 MiB per class in every group, one bit per block.
 */
module MallocSpec {
  import opened Numbers

  const CLASSES: nat := 10

  /** MPU_MALLOC_REGION_UNIT_SIZE in bytes. */
  const UNIT_BYTES: nat := 0x10_0000

  /** memsize in malloc_data_info_table: 32, doubling up to 16384. */
  function MemSize(i: nat): (r: nat)
    requires i < CLASSES
    ensures 32 <= r
  {
    if i == 0 then 32 else 2 * MemSize(i - 1)
  }

  /** SIZE_TO_BITMAXNUM: blocks per unit. */
  function BitMax(i: nat): (r: nat)
    requires i < CLASSES
  {
    if i == 0 then 32768 else BitMax(i - 1) / 2
  }

  /** k * memsize */
  function Offset(i: nat, k: nat): (r: nat)
    requires i < CLASSES
  {
    if i == 0 then 32 * k else 2 * Offset(i - 1, k)
  }

  /** offset / memsize */
  function Index(i: nat, offset: nat): (r: nat)
    requires i < CLASSES
  {
    if i == 0 then offset / 32 else Index(i - 1, offset) / 2
  }

  lemma TableValues(i: nat)
    requires i < CLASSES
    ensures MemSize(i) == [32, 64, 128, 256, 512, 1024, 2048, 4096, 8192, 16384][i]
    ensures BitMax(i) == UNIT_BYTES / MemSize(i) && BitMax(i) * MemSize(i) == UNIT_BYTES && BitMax(i) % 64 == 0
  {
  }

  /** `Offset` and `Index` are the code's product and quotient by the block size. */
  lemma TableArithmetic(i: nat, k: nat, offset: nat)
    requires i < CLASSES
    ensures Offset(i, k) == MemSize(i) * k
    ensures Index(i, offset) == offset / MemSize(i)
  {
    TableValues(i);
    assert Offset(0, k) == 32 * k;
    assert Offset(1, k) == 64 * k;
    assert Offset(2, k) == 128 * k;
    assert Offset(3, k) == 256 * k;
    assert Offset(4, k) == 512 * k;
    assert Offset(5, k) == 1024 * k;
    assert Offset(6, k) == 2048 * k;
    assert Offset(7, k) == 4096 * k;
    assert Offset(8, k) == 8192 * k;
    assert Offset(9, k) == 16384 * k;
    assert Index(0, offset) == offset / 32;
    assert Index(1, offset) == offset / 64;
    assert Index(2, offset) == offset / 128;
    assert Index(3, offset) == offset / 256;
    assert Index(4, offset) == offset / 512;
    assert Index(5, offset) == offset / 1024;
    assert Index(6, offset) == offset / 2048;
    assert Index(7, offset) == offset / 4096;
    assert Index(8, offset) == offset / 8192;
    assert Index(9, offset) == offset / 16384;
  }

  lemma HalfBitMax(i: nat)
    requires 0 < i < CLASSES
    ensures BitMax(i - 1) == 2 * BitMax(i)
  {
    TableValues(i - 1);
    TableValues(i);
  }

  lemma IndexInRange(i: nat, offset: nat)
    requires i < CLASSES && offset < UNIT_BYTES
    ensures Index(i, offset) < BitMax(i)
  {
    if i > 0 {
      IndexInRange(i - 1, offset);
      HalfBitMax(i);
    }
  }

  lemma OffsetIsLinear(i: nat, k: nat, l: nat)
    requires i < CLASSES
    ensures Offset(i, k + l) == Offset(i, k) + Offset(i, l) && Offset(i, 1) == MemSize(i)
  {
    if i > 0 {
      OffsetIsLinear(i - 1, k, l);
    }
  }

  /** Block `k` lies inside its unit, and the code finds `k` again from the block's offset. */
  lemma {:induction false} BlockArithmetic(i: nat, k: nat)
    requires i < CLASSES && k < BitMax(i)
    ensures Offset(i, k) + MemSize(i) <= UNIT_BYTES
    ensures Index(i, Offset(i, k)) == k
    decreases i
  {
    if i > 0 {
      HalfBitMax(i);
      OffsetIsLinear(i - 1, k, k);
      OffsetIsLinear(i - 1, k + k, 1);
      BlockArithmetic(i - 1, k + k);
      BlockArithmetic(i - 1, k + k + 1);
    }
  }

  lemma BlocksFollow(i: nat, k: nat, l: nat)
    requires i < CLASSES && k < l
    ensures Offset(i, k) + MemSize(i) <= Offset(i, l)
  {
  }

  /** One unit: its region, its bitmap, its count of free blocks, and whether the region has
      host memory behind it yet. */
  datatype Unit = Unit(start: nat, bits: seq<bool>, free: int, backed: bool)

  /** groups[j][i]: the unit of class i in group j. */
  type Groups = seq<seq<Unit>>

  /** A unit as group_init and group_add_region leave it. */
  function NewUnit(start: nat, i: nat): Unit
    requires i < CLASSES
  {
    Unit(start, seq(BitMax(i), k => false), BitMax(i), false)
  }

  function CountClear(bits: seq<bool>): (n: nat)
    ensures n <= |bits|
  {
    if bits == [] then 0 else (if bits[0] then 0 else 1) + CountClear(bits[1..])
  }

  /** The lowest clear bit, or the length if there is none. */
  function LowestClear(bits: seq<bool>): (k: nat)
    ensures k <= |bits| && (k < |bits| ==> !bits[k])
  {
    if bits == [] || !bits[0] then 0 else 1 + LowestClear(bits[1..])
  }

  lemma {:induction false} LowestIsLowest(bits: seq<bool>, k: nat)
    requires k <= |bits| && (k < |bits| ==> !bits[k])
    ensures LowestClear(bits) == k <==> forall n :: 0 <= n < k ==> bits[n]
    decreases |bits|
  {
    if k > 0 {
      LowestIsLowest(bits[1..], k - 1);
      assert forall n :: 0 <= n < k - 1 ==> bits[1..][n] == bits[n + 1];
      if bits[0] && forall n :: 0 <= n < k - 1 ==> bits[1..][n] {
        assert forall n :: 0 < n < k ==> bits[n] == bits[1..][n - 1];
      }
    }
  }

  lemma {:induction false} CountClearUpdate(bits: seq<bool>, k: nat, b: bool)
    requires k < |bits| && bits[k] != b
    ensures CountClear(bits[k := b]) == CountClear(bits) + (if b then -1 else 1)
  {
    if k == 0 {
      assert bits[0 := b][1..] == bits[1..];
    } else {
      assert bits[k := b][1..] == bits[1..][k - 1 := b];
      CountClearUpdate(bits[1..], k - 1, b);
    }
  }

  lemma {:induction false} NoClearBit(bits: seq<bool>)
    ensures CountClear(bits) == 0 <==> LowestClear(bits) == |bits|
  {
    if bits != [] {
      NoClearBit(bits[1..]);
    }
  }

  // ---- Well-formed states ----

  predicate UnitOk(u: Unit, i: nat)
    requires i < CLASSES
  {
    && |u.bits| == BitMax(i) && u.free == CountClear(u.bits)
    && 0 < u.start && u.start + UNIT_BYTES < TWO_TO_32
  }

  predicate Apart(u: Unit, v: Unit) {
    u.start + UNIT_BYTES <= v.start || v.start + UNIT_BYTES <= u.start
  }

  /** Complete groups: one unit of every class. */
  predicate Shaped(g: Groups) {
    forall j :: 0 <= j < |g| ==> |g[j]| == CLASSES
  }

  predicate Sized(g: Groups)
    requires Shaped(g)
  {
    forall j, i :: 0 <= j < |g| && 0 <= i < CLASSES ==> |g[j][i].bits| == BitMax(i)
  }

  ghost predicate AllOk(g: Groups)
    requires Shaped(g)
  {
    forall j, i {:trigger UnitOk(g[j][i], i)} :: 0 <= j < |g| && 0 <= i < CLASSES ==> UnitOk(g[j][i], i)
  }

  ghost predicate AllApart(g: Groups)
    requires Shaped(g)
  {
    forall j, i, k, l {:trigger Apart(g[j][i], g[k][l])} ::
      0 <= j < |g| && 0 <= i < CLASSES && 0 <= k < |g| && 0 <= l < CLASSES && (j != k || i != l)
      ==> Apart(g[j][i], g[k][l])
  }

  /** Complete groups over pairwise disjoint regions, every count equal to the number of clear bits. */
  ghost predicate Valid(g: Groups) {
    Shaped(g) && Sized(g) && AllOk(g) && AllApart(g)
  }

  // ---- Allocation ----

  /** The least class whose blocks hold `size` bytes; CLASSES if there is none. */
  function ClassFor(size: nat, from: nat): (i: nat)
    requires from <= CLASSES
    ensures from <= i <= CLASSES
    ensures i < CLASSES ==> size <= MemSize(i)
    ensures forall n :: from <= n < i ==> MemSize(n) < size
    decreases CLASSES - from
  {
    if from == CLASSES || size <= MemSize(from) then from else ClassFor(size, from + 1)
  }

  datatype Place = Nowhere | At(group: nat, class_: nat)

  /** The first group, from `j` on, whose unit of class `i` has a free block. */
  function FreeGroup(g: Groups, i: nat, j: nat): (r: Place)
    requires Shaped(g) && i < CLASSES && j <= |g|
    ensures r.At? ==> r.class_ == i && j <= r.group < |g| && g[r.group][i].free > 0
    decreases |g| - j
  {
    if j == |g| then Nowhere
    else if g[j][i].free > 0 then At(j, i)
    else FreeGroup(g, i, j + 1)
  }

  /** The class-major search: least class first, then first group. */
  function FreeUnit(g: Groups, i: nat): (r: Place)
    requires Shaped(g) && i <= CLASSES
    ensures r.At? ==> i <= r.class_ < CLASSES && r.group < |g| && g[r.group][r.class_].free > 0
    decreases CLASSES - i
  {
    if i == CLASSES then Nowhere
    else
      var r := FreeGroup(g, i, 0);
      if r.At? then r else FreeUnit(g, i + 1)
  }

  lemma {:induction false} FreeGroupIsFirst(g: Groups, i: nat, j: nat, n: nat)
    requires Shaped(g) && i < CLASSES && j <= n < |g|
    ensures (FreeGroup(g, i, j).At? && FreeGroup(g, i, j).group <= n) || g[n][i].free <= 0
    decreases |g| - j
  {
    if j < n {
      FreeGroupIsFirst(g, i, j + 1, n);
    }
  }

  /** Every unit that comes before the one found, in class-major order, is full. */
  lemma {:induction false} FreeUnitIsFirst(g: Groups, i: nat, c: nat, n: nat)
    requires Shaped(g) && i <= c < CLASSES && n < |g|
    ensures
      var r := FreeUnit(g, i);
      (r.At? && (r.class_ < c || (r.class_ == c && r.group <= n))) || g[n][c].free <= 0
    decreases CLASSES - i
  {
    if i < c {
      FreeUnitIsFirst(g, i + 1, c, n);
    } else {
      FreeGroupIsFirst(g, i, 0, n);
    }
  }

  function Update(g: Groups, j: nat, i: nat, u: Unit): (r: Groups)
    requires Shaped(g) && j < |g| && i < CLASSES
    ensures Shaped(r) && |r| == |g|
  {
    g[j := g[j][i := u]]
  }

  function BlockAddress(u: Unit, i: nat, k: nat): (addr: nat)
    requires i < CLASSES
  {
    u.start + Offset(i, k)
  }

  /** The unit after its lowest free block has been taken. */
  function Taken(u: Unit): Unit
    requires LowestClear(u.bits) < |u.bits|
  {
    u.(bits := u.bits[LowestClear(u.bits) := true], free := u.free - 1, backed := true)
  }

  /** mpu_malloc_get_memory: the address (0 for failure) and the new state. */
  function Allocate(g: Groups, size: nat): (r: (Groups, nat))
    requires Shaped(g)
  {
    var c := ClassFor(size, 0);
    match FreeUnit(g, c)
    case Nowhere => (g, 0)
    case At(j, i) => AllocateFrom(g, j, i)
  }

  function AllocateFrom(g: Groups, j: nat, i: nat): (r: (Groups, nat))
    requires Shaped(g) && j < |g| && i < CLASSES
  {
    var k := LowestClear(g[j][i].bits);
    if k == |g[j][i].bits| then (g, 0)
    else (Update(g, j, i, Taken(g[j][i])), BlockAddress(g[j][i], i, k))
  }

  // ---- Release ----

  predicate Holds(u: Unit, addr: nat) {
    u.start <= addr < u.start + UNIT_BYTES
  }

  function HoldingGroup(g: Groups, addr: nat, i: nat, j: nat): (r: Place)
    requires Shaped(g) && i < CLASSES && j <= |g|
    ensures r.At? ==> r.class_ == i && j <= r.group < |g| && Holds(g[r.group][i], addr)
    decreases |g| - j
  {
    if j == |g| then Nowhere
    else if Holds(g[j][i], addr) then At(j, i)
    else HoldingGroup(g, addr, i, j + 1)
  }

  /** search_unit */
  function HoldingUnit(g: Groups, addr: nat, i: nat): (r: Place)
    requires Shaped(g) && i <= CLASSES
    ensures r.At? ==> i <= r.class_ < CLASSES && r.group < |g| && Holds(g[r.group][r.class_], addr)
    decreases CLASSES - i
  {
    if i == CLASSES then Nowhere
    else
      var r := HoldingGroup(g, addr, i, 0);
      if r.At? then r else HoldingUnit(g, addr, i + 1)
  }

  lemma {:induction false} HoldingGroupIsFound(g: Groups, addr: nat, i: nat, j: nat, n: nat)
    requires Shaped(g) && i < CLASSES && j <= n < |g| && Holds(g[n][i], addr)
    ensures HoldingGroup(g, addr, i, j).At?
    decreases |g| - j
  {
    if j < n {
      HoldingGroupIsFound(g, addr, i, j + 1, n);
    }
  }

  lemma {:induction false} HoldingUnitIsFound(g: Groups, addr: nat, i: nat, c: nat, n: nat)
    requires Shaped(g) && i <= c < CLASSES && n < |g| && Holds(g[n][c], addr)
    ensures HoldingUnit(g, addr, i).At?
    decreases CLASSES - i
  {
    if i < c {
      HoldingUnitIsFound(g, addr, i + 1, c, n);
    } else {
      HoldingGroupIsFound(g, addr, i, 0, n);
    }
  }

  function BlockOf(u: Unit, i: nat, addr: nat): (k: nat)
    requires i < CLASSES && Holds(u, addr)
    ensures k < BitMax(i)
  {
    IndexInRange(i, addr - u.start);
    Index(i, addr - u.start)
  }

  function Freed(u: Unit, k: nat): Unit
    requires k < |u.bits|
  {
    u.(bits := u.bits[k := false], free := u.free + 1)
  }

  /** mpu_malloc_rel_memory: clears the bit of the block holding `addr`, and counts it as free
      whether it was allocated or not. */
  function Release(g: Groups, addr: nat): (r: Groups)
    requires Shaped(g) && Sized(g)
    ensures Shaped(r)
  {
    match HoldingUnit(g, addr, 0)
    case Nowhere => g
    case At(j, i) => Update(g, j, i, Freed(g[j][i], BlockOf(g[j][i], i, addr)))
  }

  // ---- Live blocks ----

  /** `addr` is the start of an allocated block. */
  predicate IsLive(g: Groups, addr: nat)
    requires Shaped(g) && Sized(g)
  {
    match HoldingUnit(g, addr, 0)
    case Nowhere => false
    case At(j, i) => LiveIn(g[j][i], i, addr)
  }

  /** mpu_malloc_ref_size of an address inside a unit. */
  function RefSize(g: Groups, addr: nat): (size: nat)
    requires Shaped(g) && HoldingUnit(g, addr, 0).At?
  {
    MemSize(HoldingUnit(g, addr, 0).class_)
  }

  lemma HoldingUnitIsUnique(g: Groups, j: nat, i: nat, addr: nat)
    requires Valid(g) && j < |g| && i < CLASSES && Holds(g[j][i], addr)
    ensures HoldingUnit(g, addr, 0) == At(j, i)
  {
    HoldingUnitIsFound(g, addr, 0, i, j);
    var At(k, l) := HoldingUnit(g, addr, 0);
    assert (k == j && l == i) || Apart(g[j][i], g[k][l]);
  }

  /** Changing the bits and the count of one unit keeps the state well formed and moves nothing. */
  lemma UpdateKeeps(g: Groups, j: nat, i: nat, u: Unit)
    requires Valid(g) && j < |g| && i < CLASSES && UnitOk(u, i) && u.start == g[j][i].start
    ensures Valid(Update(g, j, i, u))
  {
    var h := Update(g, j, i, u);
    forall k, l, m, n | 0 <= k < |h| && 0 <= l < CLASSES && 0 <= m < |h| && 0 <= n < CLASSES && (k != m || l != n)
      ensures Apart(h[k][l], h[m][n])
    {
      assert Apart(g[k][l], g[m][n]);
    }
  }

  lemma UpdateMovesNothing(g: Groups, j: nat, i: nat, u: Unit, addr: nat)
    requires Valid(g) && j < |g| && i < CLASSES && UnitOk(u, i) && u.start == g[j][i].start
    ensures HoldingUnit(Update(g, j, i, u), addr, 0) == HoldingUnit(g, addr, 0)
  {
    var h := Update(g, j, i, u);
    UpdateKeeps(g, j, i, u);
    if HoldingUnit(h, addr, 0).At? {
      HoldingUnitIsUnique(g, HoldingUnit(h, addr, 0).group, HoldingUnit(h, addr, 0).class_, addr);
    } else if HoldingUnit(g, addr, 0).At? {
      HoldingUnitIsUnique(h, HoldingUnit(g, addr, 0).group, HoldingUnit(g, addr, 0).class_, addr);
    }
  }

  lemma BlockInUnit(u: Unit, i: nat, k: nat)
    requires i < CLASSES && k < BitMax(i)
    ensures
      var addr := BlockAddress(u, i, k);
      Holds(u, addr) && BlockOf(u, i, addr) == k && addr + MemSize(i) <= u.start + UNIT_BYTES
  {
    BlockArithmetic(i, k);
  }

  /** Every block of a unit is found again from its own address. */
  lemma BlockIsFound(g: Groups, j: nat, i: nat, k: nat)
    requires Valid(g) && j < |g| && i < CLASSES && k < BitMax(i)
    ensures HoldingUnit(g, BlockAddress(g[j][i], i, k), 0) == At(j, i)
    ensures 0 < BlockAddress(g[j][i], i, k) < TWO_TO_32
    ensures IsLive(g, BlockAddress(g[j][i], i, k)) == g[j][i].bits[k]
  {
    assert UnitOk(g[j][i], i);
    BlockInUnit(g[j][i], i, k);
    HoldingUnitIsUnique(g, j, i, BlockAddress(g[j][i], i, k));
  }

  /** `addr` is the start of a block of `u` in use. */
  predicate LiveIn(u: Unit, i: nat, addr: nat)
    requires i < CLASSES && |u.bits| == BitMax(i) && Holds(u, addr)
  {
    u.bits[BlockOf(u, i, addr)] && BlockAddress(u, i, BlockOf(u, i, addr)) == addr
  }

  lemma OtherBlockOfUnit(u: Unit, v: Unit, i: nat, k: nat, addr: nat)
    requires i < CLASSES && |u.bits| == BitMax(i) && k < BitMax(i) && Holds(u, addr)
    requires v.start == u.start && |v.bits| == BitMax(i) && v.bits == u.bits[k := v.bits[k]]
    requires addr != BlockAddress(u, i, k)
    ensures LiveIn(v, i, addr) == LiveIn(u, i, addr)
  {
  }

  lemma OtherBlocksStay(g: Groups, j: nat, i: nat, k: nat, u: Unit, addr: nat)
    requires Valid(g) && j < |g| && i < CLASSES && k < BitMax(i)
    requires UnitOk(u, i) && u.start == g[j][i].start && u.bits == g[j][i].bits[k := u.bits[k]]
    requires addr != BlockAddress(g[j][i], i, k) && Valid(Update(g, j, i, u))
    ensures IsLive(Update(g, j, i, u), addr) == IsLive(g, addr)
  {
    UpdateMovesNothing(g, j, i, u, addr);
    if HoldingUnit(g, addr, 0) == At(j, i) {
      OtherBlockOfUnit(g[j][i], u, i, k, addr);
    }
  }

  /** Changing bit `k` of one unit changes the liveness of no address but that block's. */
  lemma FlipChangesOneBlock(g: Groups, j: nat, i: nat, k: nat, u: Unit, addr: nat)
    requires Valid(g) && j < |g| && i < CLASSES && k < BitMax(i)
    requires UnitOk(u, i) && u.start == g[j][i].start && u.bits == g[j][i].bits[k := u.bits[k]]
    ensures Valid(Update(g, j, i, u))
    ensures IsLive(Update(g, j, i, u), addr) ==
            if addr == BlockAddress(g[j][i], i, k) then u.bits[k] else IsLive(g, addr)
  {
    UpdateKeeps(g, j, i, u);
    if addr == BlockAddress(g[j][i], i, k) {
      BlockIsFound(Update(g, j, i, u), j, i, k);
      assert BlockAddress(u, i, k) == addr;
    } else {
      OtherBlocksStay(g, j, i, k, u, addr);
    }
  }

  // ---- What allocation does ----

  predicate IsFull(u: Unit) {
    forall k :: 0 <= k < |u.bits| ==> u.bits[k]
  }

  /** Some unit of class `i` has a free block. */
  predicate HasFreeBlock(g: Groups, i: nat)
    requires Shaped(g) && i < CLASSES
  {
    exists j :: 0 <= j < |g| && !IsFull(g[j][i])
  }

  lemma FreeMeansClear(g: Groups, j: nat, i: nat)
    requires Valid(g) && j < |g| && i < CLASSES
    ensures g[j][i].free <= 0 <==> IsFull(g[j][i])
    ensures g[j][i].free > 0 <==> LowestClear(g[j][i].bits) < |g[j][i].bits|
  {
    assert UnitOk(g[j][i], i);
    NoClearBit(g[j][i].bits);
    LowestIsLowest(g[j][i].bits, |g[j][i].bits|);
  }

  function Chosen(g: Groups, size: nat): Place
    requires Shaped(g)
  {
    FreeUnit(g, ClassFor(size, 0))
  }

  lemma LargeEnough(size: nat)
    ensures size <= 16384 <==> exists i :: 0 <= i < CLASSES && size <= MemSize(i)
    ensures forall i :: 0 <= i < CLASSES && size <= MemSize(i) ==> ClassFor(size, 0) <= i
    ensures forall i :: ClassFor(size, 0) <= i < CLASSES ==> size <= MemSize(i)
  {
    SizesIncrease();
    assert MemSize(9) == 16384;
  }

  lemma FullMeansNowhere(g: Groups, size: nat)
    requires Valid(g) && Chosen(g, size).Nowhere?
    ensures forall i :: 0 <= i < CLASSES && size <= MemSize(i) ==> !HasFreeBlock(g, i)
  {
    LargeEnough(size);
    forall i, j | 0 <= i < CLASSES && size <= MemSize(i) && 0 <= j < |g|
      ensures IsFull(g[j][i])
    {
      FreeUnitIsFirst(g, ClassFor(size, 0), i, j);
      FreeMeansClear(g, j, i);
    }
  }

  lemma ChosenHasFreeBlock(g: Groups, size: nat)
    requires Valid(g) && Chosen(g, size).At?
    ensures
      var r := Chosen(g, size);
      && size <= MemSize(r.class_) && HasFreeBlock(g, r.class_)
      && LowestClear(g[r.group][r.class_].bits) < |g[r.group][r.class_].bits|
      && BlockAddress(g[r.group][r.class_], r.class_, LowestClear(g[r.group][r.class_].bits)) != 0
  {
    var At(j, i) := Chosen(g, size);
    LargeEnough(size);
    FreeMeansClear(g, j, i);
    assert UnitOk(g[j][i], i);
  }

  /** 0 exactly when the size exceeds the largest class or every sufficient class is full. */
  lemma AllocateFailsIff(g: Groups, size: nat)
    requires Valid(g)
    ensures Allocate(g, size).1 == 0 <==>
            size > 16384 || forall i :: 0 <= i < CLASSES && size <= MemSize(i) ==> !HasFreeBlock(g, i)
    ensures Allocate(g, size).1 == 0 ==> Allocate(g, size).0 == g
  {
    if Chosen(g, size).At? {
      ChosenHasFreeBlock(g, size);
      LargeEnough(size);
    } else {
      FullMeansNowhere(g, size);
    }
  }

  lemma SizesIncrease()
    ensures forall i, j :: 0 <= i <= j < CLASSES ==> MemSize(i) <= MemSize(j)
  {
    forall i | 0 <= i < CLASSES ensures MemSize(i) == [32, 64, 128, 256, 512, 1024, 2048, 4096, 8192, 16384][i] {
      TableValues(i);
    }
  }

  /** A successful allocation takes the lowest clear bit of the chosen unit, and nothing else changes. */
  lemma AllocateChoice(g: Groups, size: nat)
    requires Valid(g) && Allocate(g, size).1 != 0
    ensures Chosen(g, size).At? && Chosen(g, size).group < |g| && Chosen(g, size).class_ < CLASSES
    ensures
      var At(j, i) := Chosen(g, size);
      var u := g[j][i];
      && size <= MemSize(i)
      && exists k: nat ::
           && k < |u.bits| && !u.bits[k] && (forall n :: 0 <= n < k ==> u.bits[n])
           && Allocate(g, size).1 == u.start + MemSize(i) * k
           && Allocate(g, size).0 == Update(g, j, i, u.(bits := u.bits[k := true], free := u.free - 1, backed := true))
  {
    LargeEnough(size);
    var At(j, i) := Chosen(g, size);
    var k := LowestClear(g[j][i].bits);
    LowestIsLowest(g[j][i].bits, k);
    TableArithmetic(i, k, 0);
  }

  /** The chosen unit is the first group's of the least sufficient class that has a free block. */
  lemma ChoiceIsFirst(g: Groups, size: nat)
    requires Valid(g) && Chosen(g, size).At?
    ensures
      var r := Chosen(g, size);
      && !IsFull(g[r.group][r.class_])
      && (forall c, n :: 0 <= c < r.class_ && size <= MemSize(c) && 0 <= n < |g| ==> IsFull(g[n][c]))
      && (forall n :: 0 <= n < r.group ==> IsFull(g[n][r.class_]))
  {
    var r := Chosen(g, size);
    LargeEnough(size);
    FreeMeansClear(g, r.group, r.class_);
    forall c, n | ClassFor(size, 0) <= c < CLASSES && 0 <= n < |g| && (c < r.class_ || (c == r.class_ && n < r.group))
      ensures IsFull(g[n][c])
    {
      FreeUnitIsFirst(g, ClassFor(size, 0), c, n);
      FreeMeansClear(g, n, c);
    }
  }

  lemma TakenIsOk(u: Unit, i: nat)
    requires i < CLASSES && UnitOk(u, i) && LowestClear(u.bits) < |u.bits|
    ensures UnitOk(Taken(u), i)
  {
    CountClearUpdate(u.bits, LowestClear(u.bits), true);
  }

  /** A successful allocation makes exactly one address live, one that was not. */
  lemma AllocateKeeps(g: Groups, size: nat, a: nat)
    requires Valid(g) && Allocate(g, size).1 != 0
    ensures Valid(Allocate(g, size).0)
    ensures IsLive(Allocate(g, size).0, a) == (a == Allocate(g, size).1 || IsLive(g, a))
    ensures HoldingUnit(Allocate(g, size).0, a, 0) == HoldingUnit(g, a, 0)
  {
    AllocateChoice(g, size);
    var At(j, i) := Chosen(g, size);
    assert UnitOk(g[j][i], i);
    TakenIsOk(g[j][i], i);
    FlipChangesOneBlock(g, j, i, LowestClear(g[j][i].bits), Taken(g[j][i]), a);
    UpdateMovesNothing(g, j, i, Taken(g[j][i]), a);
  }

  /** The block it returns was free and is large enough. */
  lemma AllocateFits(g: Groups, size: nat)
    requires Valid(g) && Allocate(g, size).1 != 0
    ensures Allocate(g, size).1 < TWO_TO_32 && !IsLive(g, Allocate(g, size).1)
    ensures HoldingUnit(g, Allocate(g, size).1, 0).At? && size <= RefSize(g, Allocate(g, size).1)
  {
    AllocateChoice(g, size);
    var At(j, i) := Chosen(g, size);
    assert UnitOk(g[j][i], i);
    BlockIsFound(g, j, i, LowestClear(g[j][i].bits));
  }

  // ---- What release does ----

  predicate InUse(g: Groups, addr: nat)
    requires Shaped(g) && Sized(g)
  {
    match HoldingUnit(g, addr, 0)
    case Nowhere => false
    case At(j, i) => g[j][i].bits[BlockOf(g[j][i], i, addr)]
  }

  /** Release does not check what it is given: the counts stay right if and only if the address is
      outside every unit or inside a block in use.  A second release of a block breaks them. */
  lemma ReleaseKeepsIff(g: Groups, addr: nat)
    requires Valid(g)
    ensures Valid(Release(g, addr)) <==> HoldingUnit(g, addr, 0).Nowhere? || InUse(g, addr)
  {
    match HoldingUnit(g, addr, 0)
    case Nowhere =>
    case At(j, i) =>
      var u := g[j][i];
      var k := BlockOf(u, i, addr);
      assert UnitOk(u, i);
      if u.bits[k] {
        CountClearUpdate(u.bits, k, false);
        UpdateKeeps(g, j, i, Freed(u, k));
      } else {
        assert u.bits[k := false] == u.bits;
        assert !UnitOk(Release(g, addr)[j][i], i);
      }
  }

  /** Releasing a live block removes exactly that address. */
  lemma ReleaseLive(g: Groups, addr: nat, a: nat)
    requires Valid(g) && IsLive(g, addr)
    ensures Valid(Release(g, addr))
    ensures IsLive(Release(g, addr), a) == (a != addr && IsLive(g, a))
    ensures HoldingUnit(Release(g, addr), a, 0) == HoldingUnit(g, a, 0)
  {
    var At(j, i) := HoldingUnit(g, addr, 0);
    var u := g[j][i];
    var k := BlockOf(u, i, addr);
    assert UnitOk(u, i);
    CountClearUpdate(u.bits, k, false);
    FlipChangesOneBlock(g, j, i, k, Freed(u, k), a);
    UpdateMovesNothing(g, j, i, Freed(u, k), a);
  }

  lemma UpdateSame(g: Groups, j: nat, i: nat)
    requires Shaped(g) && j < |g| && i < CLASSES
    ensures Update(g, j, i, g[j][i]) == g
  {
    assert g[j][i := g[j][i]] == g[j];
  }

  lemma UpdateTwice(g: Groups, j: nat, i: nat, u: Unit, v: Unit)
    requires Shaped(g) && j < |g| && i < CLASSES
    ensures Update(Update(g, j, i, u), j, i, v) == Update(g, j, i, v)
  {
    assert g[j][i := u][i := v] == g[j][i := v];
  }

  lemma FreedTaken(u: Unit)
    requires LowestClear(u.bits) < |u.bits|
    ensures Freed(Taken(u), LowestClear(u.bits)) == u.(backed := true)
  {
  }

  lemma TakeThenFree(g: Groups, j: nat, i: nat, h: Groups)
    requires Valid(g) && j < |g| && i < CLASSES && LowestClear(g[j][i].bits) < |g[j][i].bits|
    requires h == Update(g, j, i, Taken(g[j][i])) && Valid(h)
    ensures Release(h, BlockAddress(g[j][i], i, LowestClear(g[j][i].bits))) == Update(g, j, i, g[j][i].(backed := true))
  {
    var k := LowestClear(g[j][i].bits);
    ReleaseOfBlock(h, j, i, k);
    assert BlockAddress(h[j][i], i, k) == BlockAddress(g[j][i], i, k);
    FreedTaken(g[j][i]);
    UpdateTwice(g, j, i, Taken(g[j][i]), g[j][i].(backed := true));
  }

  /** Allocating and releasing restores every bitmap and every count. */
  lemma AllocateThenRelease(g: Groups, size: nat)
    requires Valid(g) && Allocate(g, size).1 != 0
    ensures Valid(Allocate(g, size).0)
    ensures
      var r := Chosen(g, size);
      Release(Allocate(g, size).0, Allocate(g, size).1)
      == Update(g, r.group, r.class_, g[r.group][r.class_].(backed := true))
  {
    AllocateChoice(g, size);
    AllocateKeeps(g, size, 0);
    TakeThenFree(g, Chosen(g, size).group, Chosen(g, size).class_, Allocate(g, size).0);
  }

  lemma ReleaseOfBlock(g: Groups, j: nat, i: nat, k: nat)
    requires Valid(g) && j < |g| && i < CLASSES && k < |g[j][i].bits|
    ensures Release(g, BlockAddress(g[j][i], i, k)) == Update(g, j, i, Freed(g[j][i], k))
  {
    assert UnitOk(g[j][i], i);
    BlockInUnit(g[j][i], i, k);
    HoldingUnitIsUnique(g, j, i, BlockAddress(g[j][i], i, k));
  }

  // ---- Live blocks never overlap ----

  /** A live block lies inside its unit's region, at a multiple of its class size. */
  lemma LiveBlockInsideUnit(g: Groups, a: nat)
    requires Valid(g) && IsLive(g, a)
    ensures
      var At(j, i) := HoldingUnit(g, a, 0);
      && g[j][i].start <= a && a + RefSize(g, a) <= g[j][i].start + UNIT_BYTES < TWO_TO_32
      && exists k: nat :: k < BitMax(i) && a == g[j][i].start + RefSize(g, a) * k
  {
    var At(j, i) := HoldingUnit(g, a, 0);
    assert UnitOk(g[j][i], i);
    var k := BlockOf(g[j][i], i, a);
    BlockInUnit(g[j][i], i, k);
    TableArithmetic(i, k, 0);
  }

  lemma LiveBlocksDisjoint(g: Groups, a: nat, b: nat)
    requires Valid(g) && IsLive(g, a) && IsLive(g, b) && a < b
    ensures a + RefSize(g, a) <= b
  {
    var At(j, i) := HoldingUnit(g, a, 0);
    var At(n, l) := HoldingUnit(g, b, 0);
    LiveBlockInsideUnit(g, a);
    if j == n && i == l {
      var k, m := BlockOf(g[j][i], i, a), BlockOf(g[j][i], i, b);
      if k < m {
        BlocksFollow(i, k, m);
      } else if m < k {
        BlocksFollow(i, m, k);
      }
    } else {
      assert Apart(g[j][i], g[n][l]);
    }
  }

  // ---- Whole runs ----

  datatype Op = Get(size: nat) | Put(addr: nat)

  /** The allocator together with what its callers hold: address to requested size. */
  datatype Heap = Heap(groups: Groups, held: map<nat, nat>)

  function Apply(s: Heap, op: Op): (r: Heap)
    requires Shaped(s.groups) && Sized(s.groups)
    ensures Shaped(r.groups)
  {
    match op
    case Get(size) =>
      var (h, addr) := Allocate(s.groups, size);
      if addr == 0 then s else Heap(h, s.held[addr := size])
    case Put(addr) => Heap(Release(s.groups, addr), s.held - {addr})
  }

  /** Callers release only what they hold. */
  ghost predicate Disciplined(s: Heap, op: Op) {
    op.Put? ==> op.addr in s.held
  }

  /** Held addresses are exactly the live blocks, each at least as large as requested. */
  ghost predicate Safe(s: Heap) {
    && Valid(s.groups)
    && (forall a: nat :: Agrees(s.groups, s.held, a))
  }

  /** The caller's view of one address agrees with the allocator's. */
  ghost predicate Agrees(g: Groups, held: map<nat, nat>, a: nat)
    requires Shaped(g) && Sized(g)
  {
    (a in held <==> IsLive(g, a)) && (a in held ==> held[a] <= RefSize(g, a))
  }

  lemma GetAgrees(s: Heap, size: nat, a: nat)
    requires Safe(s) && Allocate(s.groups, size).1 != 0
    ensures
      var t := Apply(s, Get(size));
      Valid(t.groups) && Agrees(t.groups, t.held, a)
  {
    AllocateFits(s.groups, size);
    AllocateKeeps(s.groups, size, a);
    assert Agrees(s.groups, s.held, a);
  }

  lemma PutAgrees(s: Heap, addr: nat, a: nat)
    requires Safe(s) && addr in s.held
    ensures
      var t := Apply(s, Put(addr));
      Valid(t.groups) && Agrees(t.groups, t.held, a)
  {
    assert Agrees(s.groups, s.held, addr);
    ReleaseLive(s.groups, addr, a);
    assert Agrees(s.groups, s.held, a);
  }

  lemma GetKeepsSafe(s: Heap, size: nat)
    requires Safe(s)
    ensures Safe(Apply(s, Get(size)))
  {
    if Allocate(s.groups, size).1 != 0 {
      GetAgrees(s, size, 0);
      var t := Apply(s, Get(size));
      forall a: nat ensures Agrees(t.groups, t.held, a) { GetAgrees(s, size, a); }
    }
  }

  lemma PutKeepsSafe(s: Heap, addr: nat)
    requires Safe(s) && addr in s.held
    ensures Safe(Apply(s, Put(addr)))
  {
    PutAgrees(s, addr, 0);
    var t := Apply(s, Put(addr));
    forall a: nat ensures Agrees(t.groups, t.held, a) { PutAgrees(s, addr, a); }
  }

  /** Releasing an address inside a block in use, but not its start, frees a block that is still held. */
  lemma InsideFreesHeldBlock(s: Heap, addr: nat, j: nat, i: nat)
    requires Safe(s) && HoldingUnit(s.groups, addr, 0) == At(j, i) && addr !in s.held && InUse(s.groups, addr)
    ensures !Safe(Apply(s, Put(addr)))
  {
    var g := s.groups;
    var k := BlockOf(g[j][i], i, addr);
    var block := BlockAddress(g[j][i], i, k);
    BlockIsFound(g, j, i, k);
    ReleaseLive(g, block, block);
    ReleaseOfBlock(g, j, i, k);
    assert Release(g, addr) == Release(g, block);
    assert Agrees(g, s.held, block);
    assert !Agrees(Release(g, addr), s.held - {addr}, block);
  }

  /** Exactly which releases are safe: of an address outside every unit, which does nothing, and of a held block.
      Releasing twice, or at an address inside a block, is not. */
  lemma PutSafeIff(s: Heap, addr: nat)
    requires Safe(s)
    ensures Safe(Apply(s, Put(addr))) <==> HoldingUnit(s.groups, addr, 0).Nowhere? || addr in s.held
  {
    assert Agrees(s.groups, s.held, addr);
    if addr in s.held {
      PutKeepsSafe(s, addr);
    } else if HoldingUnit(s.groups, addr, 0).Nowhere? {
      assert Apply(s, Put(addr)) == s;
    } else {
      ReleaseKeepsIff(s.groups, addr);
      if InUse(s.groups, addr) {
        var At(j, i) := HoldingUnit(s.groups, addr, 0);
        InsideFreesHeldBlock(s, addr, j, i);
      }
    }
  }

  /** The second of two releases of a held block breaks the counts. */
  lemma DoubleReleaseIsUnsafe(s: Heap, addr: nat)
    requires Safe(s) && addr in s.held
    ensures Safe(Apply(s, Put(addr))) && !Safe(Apply(Apply(s, Put(addr)), Put(addr)))
  {
    var t := Apply(s, Put(addr));
    assert Agrees(s.groups, s.held, addr);
    PutKeepsSafe(s, addr);
    ReleaseLive(s.groups, addr, addr);
    PutSafeIff(t, addr);
  }

  /** A release one byte into a held block keeps the counts right, and frees it under its holder. */
  lemma InteriorReleaseIsUnsafe(s: Heap, addr: nat)
    requires Safe(s) && addr in s.held
    ensures Valid(Release(s.groups, addr + 1)) && !Safe(Apply(s, Put(addr + 1)))
  {
    assert Agrees(s.groups, s.held, addr) && Agrees(s.groups, s.held, addr + 1);
    var At(j, i) := HoldingUnit(s.groups, addr, 0);
    LiveBlockInsideUnit(s.groups, addr);
    SameBlock(s.groups, j, i, addr);
    ReleaseKeepsIff(s.groups, addr + 1);
    PutSafeIff(s, addr + 1);
  }

  /** The address after the start of a block belongs to the same block, and starts none. */
  lemma SameBlock(g: Groups, j: nat, i: nat, addr: nat)
    requires Valid(g) && IsLive(g, addr) && HoldingUnit(g, addr, 0) == At(j, i)
    ensures HoldingUnit(g, addr + 1, 0) == At(j, i) && InUse(g, addr + 1) && !IsLive(g, addr + 1)
  {
    var u := g[j][i];
    var k := BlockOf(u, i, addr);
    assert UnitOk(u, i);
    BlockInUnit(u, i, k);
    HoldingUnitIsUnique(g, j, i, addr + 1);
    TableArithmetic(i, k, addr + 1 - u.start);
    NextByte(MemSize(i), k);
  }

  lemma Grows(size: nat, a: nat, b: nat)
    requires a <= b
    ensures size * a <= size * b
  {
  }

  lemma NextByte(size: nat, k: nat)
    requires 1 < size
    ensures (size * k + 1) / size == k
  {
    var q := (size * k + 1) / size;
    assert size * q <= size * k + 1 < size * (q + 1);
    if q < k {
      Grows(size, q + 1, k);
    } else if k < q {
      Grows(size, k + 1, q);
    }
  }

  lemma ApplyKeepsSafe(s: Heap, op: Op)
    requires Safe(s) && Disciplined(s, op)
    ensures Safe(Apply(s, op))
  {
    match op
    case Get(size) => GetKeepsSafe(s, size);
    case Put(addr) => PutKeepsSafe(s, addr);
  }

  ghost predicate DisciplinedRun(s: Heap, ops: seq<Op>)
    requires Safe(s)
    decreases |ops|
  {
    |ops| > 0 ==>
      && Disciplined(s, ops[0])
      && (Safe(Apply(s, ops[0])) ==> DisciplinedRun(Apply(s, ops[0]), ops[1..]))
  }

  ghost function Run(s: Heap, ops: seq<Op>): Heap
    requires Safe(s) && DisciplinedRun(s, ops)
    ensures Safe(Run(s, ops))
    decreases |ops|
  {
    if ops == [] then s
    else
      ApplyKeepsSafe(s, ops[0]);
      Run(Apply(s, ops[0]), ops[1..])
  }

  /** A block inside its unit's region, at a multiple of its class size. */
  ghost predicate Placed(g: Groups, a: nat)
    requires Valid(g) && HoldingUnit(g, a, 0).At?
  {
    var At(j, i) := HoldingUnit(g, a, 0);
    && g[j][i].start <= a && a + RefSize(g, a) <= g[j][i].start + UNIT_BYTES < TWO_TO_32
    && exists k: nat :: k < BitMax(i) && a == g[j][i].start + RefSize(g, a) * k
  }

  /** Over every disciplined run: held blocks are pairwise disjoint, inside their unit, aligned to their class,
      and at least as large as requested. */
  lemma HeldBlocksAreSafe(s: Heap, ops: seq<Op>, a: nat, b: nat)
    requires Safe(s) && DisciplinedRun(s, ops)
    requires a in Run(s, ops).held && b in Run(s, ops).held && a < b
    ensures
      var t := Run(s, ops);
      && IsLive(t.groups, a) && IsLive(t.groups, b) && Placed(t.groups, a) && Placed(t.groups, b)
      && t.held[a] <= RefSize(t.groups, a) && t.held[b] <= RefSize(t.groups, b) && a + RefSize(t.groups, a) <= b
  {
    var t := Run(s, ops);
    assert Agrees(t.groups, t.held, a) && Agrees(t.groups, t.held, b);
    LiveBlockInsideUnit(t.groups, a);
    LiveBlockInsideUnit(t.groups, b);
    LiveBlocksDisjoint(t.groups, a, b);
  }

  // ---- Building the groups ----

  /** group_get: a new group when there is none with room. */
  function WithRoom(g: Groups): Groups {
    if |g| == 0 || |g[|g| - 1]| >= CLASSES then g + [[]] else g
  }

  /** mpu_malloc_add_region */
  function WithRegion(g: Groups, start: nat): Groups {
    var h := WithRoom(g);
    var j := |h| - 1;
    h[j := h[j] + [NewUnit(start, |h[j]|)]]
  }

  function WithRegions(starts: seq<nat>): Groups {
    if starts == [] then [] else WithRegion(WithRegions(starts[..|starts| - 1]), starts[|starts| - 1])
  }

  /** Groups of ten: all but the last are complete. */
  lemma {:induction false} GroupsOfTen(starts: seq<nat>)
    ensures 10 * |WithRegions(starts)| - 10 < |starts| <= 10 * |WithRegions(starts)|
    ensures forall j :: 0 <= j < |WithRegions(starts)| ==>
              |WithRegions(starts)[j]| ==
              if j < |WithRegions(starts)| - 1 then 10 else |starts| - 10 * (|WithRegions(starts)| - 1)
  {
    if starts != [] {
      GroupsOfTen(starts[..|starts| - 1]);
    }
  }

  /** Region 10 * j + i becomes class i of group j. */
  lemma {:induction false} RegionInPlace(starts: seq<nat>, j: nat, i: nat)
    requires i < CLASSES && 10 * j + i < |starts|
    ensures j < |WithRegions(starts)| && i < |WithRegions(starts)[j]|
    ensures WithRegions(starts)[j][i] == NewUnit(starts[10 * j + i], i)
    ensures
      var u := WithRegions(starts)[j][i];
      u.start == starts[10 * j + i] && !u.backed && u.free == |u.bits| && true !in u.bits
    decreases |starts|
  {
    var before := starts[..|starts| - 1];
    GroupsOfTen(before);
    if 10 * j + i < |before| {
      RegionInPlace(before, j, i);
    }
  }

  lemma {:induction false} AllClear(bits: seq<bool>)
    requires forall k :: 0 <= k < |bits| ==> !bits[k]
    ensures CountClear(bits) == |bits|
  {
    if bits != [] {
      AllClear(bits[1..]);
    }
  }

  lemma NewUnitIsOk(start: nat, i: nat)
    requires i < CLASSES && 0 < start && start + UNIT_BYTES < TWO_TO_32
    ensures UnitOk(NewUnit(start, i), i)
  {
    AllClear(NewUnit(start, i).bits);
  }

  /** Regions as the memory map demands them: a multiple of ten, disjoint, representable. */
  ghost predicate WellPlaced(starts: seq<nat>) {
    && |starts| % 10 == 0
    && (forall n :: 0 <= n < |starts| ==> 0 < starts[n] && starts[n] + UNIT_BYTES < TWO_TO_32)
    && (forall m, n :: 0 <= m < |starts| && 0 <= n < |starts| && m != n ==>
          starts[m] + UNIT_BYTES <= starts[n] || starts[n] + UNIT_BYTES <= starts[m])
  }

  lemma PlacedUnit(starts: seq<nat>, j: nat, i: nat)
    requires WellPlaced(starts) && i < CLASSES && 10 * j + i < |starts|
    ensures j < |WithRegions(starts)| && i < |WithRegions(starts)[j]|
    ensures UnitOk(WithRegions(starts)[j][i], i) && WithRegions(starts)[j][i].start == starts[10 * j + i]
  {
    RegionInPlace(starts, j, i);
    NewUnitIsOk(starts[10 * j + i], i);
  }

  lemma PlacedApart(starts: seq<nat>, j: nat, i: nat, k: nat, l: nat)
    requires WellPlaced(starts) && i < CLASSES && 10 * j + i < |starts| && l < CLASSES && 10 * k + l < |starts|
    requires j != k || i != l
    ensures j < |WithRegions(starts)| && i < |WithRegions(starts)[j]| && k < |WithRegions(starts)|
            && l < |WithRegions(starts)[k]|
    ensures Apart(WithRegions(starts)[j][i], WithRegions(starts)[k][l])
  {
    PlacedUnit(starts, j, i);
    PlacedUnit(starts, k, l);
    assert 10 * j + i != 10 * k + l;
  }

  lemma CompleteGroupsAreValid(starts: seq<nat>)
    requires WellPlaced(starts)
    ensures Valid(WithRegions(starts))
  {
    GroupsOfTen(starts);
    var g := WithRegions(starts);
    assert Shaped(g);
    forall j, i | 0 <= j < |g| && 0 <= i < CLASSES
      ensures UnitOk(g[j][i], i) && |g[j][i].bits| == BitMax(i)
    {
      PlacedUnit(starts, j, i);
    }
    forall j, i, k, l | 0 <= j < |g| && 0 <= i < CLASSES && 0 <= k < |g| && 0 <= l < CLASSES && (j != k || i != l)
      ensures Apart(g[j][i], g[k][l])
    {
      PlacedApart(starts, j, i, k, l);
    }
  }

  /** Attaching the regions gives a well-formed allocator in which nothing is held. */
  lemma CompleteGroupsAreSafe(starts: seq<nat>)
    requires WellPlaced(starts)
    ensures Safe(Heap(WithRegions(starts), map[]))
  {
    CompleteGroupsAreValid(starts);
    GroupsOfTen(starts);
    var g := WithRegions(starts);
    forall a: nat
      ensures Agrees(g, map[], a)
    {
      match HoldingUnit(g, a, 0)
      case Nowhere =>
      case At(j, i) =>
        RegionInPlace(starts, j, i);
        assert !g[j][i].bits[BlockOf(g[j][i], i, a)];
    }
  }

  // ---- Memory behind the blocks ----

  /** A unit with a block in use has host memory. */
  predicate UsedIsBacked(u: Unit) {
    u.backed || true !in u.bits
  }

  ghost predicate AllBacked(g: Groups)
    requires Shaped(g)
  {
    forall j, i {:trigger UsedIsBacked(g[j][i])} :: 0 <= j < |g| && 0 <= i < CLASSES ==> UsedIsBacked(g[j][i])
  }

  lemma UpdateKeepsBacked(g: Groups, j: nat, i: nat, u: Unit)
    requires Shaped(g) && AllBacked(g) && j < |g| && i < CLASSES && UsedIsBacked(u)
    ensures AllBacked(Update(g, j, i, u))
  {
    var h := Update(g, j, i, u);
    forall n, c | 0 <= n < |h| && 0 <= c < CLASSES
      ensures UsedIsBacked(h[n][c])
    {
      assert UsedIsBacked(g[n][c]);
    }
  }

  lemma ApplyKeepsBacked(s: Heap, op: Op)
    requires Shaped(s.groups) && Sized(s.groups) && AllBacked(s.groups)
    ensures AllBacked(Apply(s, op).groups)
  {
    var g := s.groups;
    match op
    case Get(size) =>
      match FreeUnit(g, ClassFor(size, 0)) {
        case Nowhere =>
        case At(j, i) =>
          if LowestClear(g[j][i].bits) < |g[j][i].bits| {
            UpdateKeepsBacked(g, j, i, Taken(g[j][i]));
          }
      }
    case Put(addr) =>
      match HoldingUnit(g, addr, 0) {
        case Nowhere =>
        case At(j, i) =>
          assert UsedIsBacked(g[j][i]);
          UpdateKeepsBacked(g, j, i, Freed(g[j][i], BlockOf(g[j][i], i, addr)));
      }
  }

  lemma {:induction false} RunKeepsBacked(s: Heap, ops: seq<Op>)
    requires Safe(s) && AllBacked(s.groups) && DisciplinedRun(s, ops)
    ensures AllBacked(Run(s, ops).groups)
    decreases |ops|
  {
    if ops != [] {
      ApplyKeepsSafe(s, ops[0]);
      ApplyKeepsBacked(s, ops[0]);
      RunKeepsBacked(Apply(s, ops[0]), ops[1..]);
    }
  }

  lemma CompleteGroupsAreBacked(starts: seq<nat>)
    requires WellPlaced(starts)
    ensures Shaped(WithRegions(starts)) && AllBacked(WithRegions(starts))
  {
    CompleteGroupsAreValid(starts);
    GroupsOfTen(starts);
    var g := WithRegions(starts);
    forall j, i | 0 <= j < |g| && 0 <= i < CLASSES
      ensures UsedIsBacked(g[j][i])
    {
      RegionInPlace(starts, j, i);
    }
  }

  /** Memory is taken from the host only when a unit is first used, and still every block a caller holds, at any point
      of any disciplined run, has memory behind it. */
  lemma HeldBlocksAreBacked(starts: seq<nat>, ops: seq<Op>, a: nat)
    requires WellPlaced(starts) && Safe(Heap(WithRegions(starts), map[]))
    requires DisciplinedRun(Heap(WithRegions(starts), map[]), ops)
    requires a in Run(Heap(WithRegions(starts), map[]), ops).held
    ensures
      var g := Run(Heap(WithRegions(starts), map[]), ops).groups;
      var r := HoldingUnit(g, a, 0);
      r.At? && g[r.group][r.class_].backed
  {
    var s := Heap(WithRegions(starts), map[]);
    CompleteGroupsAreBacked(starts);
    RunKeepsBacked(s, ops);
    var t := Run(s, ops);
    assert Agrees(t.groups, t.held, a);
    var r := HoldingUnit(t.groups, a, 0);
    assert UsedIsBacked(t.groups[r.group][r.class_]);
  }
}
