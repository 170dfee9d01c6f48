/** The packed bitmaps of mpu_malloc.c: bit i of a unit is bit i % 8 of byte i / 8. */
module Bitmap {
  import opened MallocSpec

  function Mask(k: nat): bv8
    requires k < 8
  {
    if k == 0 then 1 else if k == 1 then 2 else if k == 2 then 4 else if k == 3 then 8
    else if k == 4 then 16 else if k == 5 then 32 else if k == 6 then 64 else 128
  }

  predicate BitIsSet(b: bv8, k: nat)
    requires k < 8
  {
    b & Mask(k) != 0
  }

  predicate Bit(bytes: seq<bv8>, i: nat)
    requires i / 8 < |bytes|
  {
    BitIsSet(bytes[i / 8], i % 8)
  }

  /** The bitmap `bytes` holds exactly `bits`. */
  ghost predicate Shows(bytes: seq<bv8>, bits: seq<bool>) {
    |bits| <= 8 * |bytes| && forall i :: 0 <= i < |bits| ==> bits[i] == Bit(bytes, i)
  }

  lemma SetOneBit(b: bv8, k: nat, j: nat)
    requires k < 8 && j < 8
    ensures BitIsSet(b | Mask(k), j) == (j == k || BitIsSet(b, j))
  {
  }

  lemma ClearOneBit(b: bv8, k: nat, j: nat)
    requires k < 8 && j < 8
    ensures BitIsSet(b & !Mask(k), j) == (j != k && BitIsSet(b, j))
  {
  }

  lemma FullByte(b: bv8)
    ensures b == 0xFF <==> forall k :: 0 <= k < 8 ==> BitIsSet(b, k)
  {
    if forall k :: 0 <= k < 8 ==> BitIsSet(b, k) {
      assert BitIsSet(b, 0) && BitIsSet(b, 1) && BitIsSet(b, 2) && BitIsSet(b, 3);
      assert BitIsSet(b, 4) && BitIsSet(b, 5) && BitIsSet(b, 6) && BitIsSet(b, 7);
    }
  }

  /** Writing one byte with one bit changed changes one bit of the bitmap. */
  lemma ByteUpdateShows(bytes: seq<bv8>, bits: seq<bool>, i: nat, b: bv8, value: bool)
    requires Shows(bytes, bits) && i < |bits|
    requires forall j :: 0 <= j < 8 ==> BitIsSet(b, j) == if j == i % 8 then value else BitIsSet(bytes[i / 8], j)
    ensures Shows(bytes[i / 8 := b], bits[i := value])
  {
    var newBytes, newBits := bytes[i / 8 := b], bits[i := value];
    forall n | 0 <= n < |newBits|
      ensures newBits[n] == Bit(newBytes, n)
    {
      if n / 8 == i / 8 {
        assert n % 8 == i % 8 ==> n == i;
      }
    }
  }

  lemma SetShows(bytes: seq<bv8>, bits: seq<bool>, i: nat)
    requires Shows(bytes, bits) && i < |bits|
    ensures Shows(bytes[i / 8 := bytes[i / 8] | Mask(i % 8)], bits[i := true])
  {
    var b := bytes[i / 8] | Mask(i % 8);
    forall j | 0 <= j < 8
      ensures BitIsSet(b, j) == if j == i % 8 then true else BitIsSet(bytes[i / 8], j)
    {
      SetOneBit(bytes[i / 8], i % 8, j);
    }
    ByteUpdateShows(bytes, bits, i, b, true);
  }

  lemma ClearShows(bytes: seq<bv8>, bits: seq<bool>, i: nat)
    requires Shows(bytes, bits) && i < |bits|
    ensures Shows(bytes[i / 8 := bytes[i / 8] & !Mask(i % 8)], bits[i := false])
  {
    var b := bytes[i / 8] & !Mask(i % 8);
    forall j | 0 <= j < 8
      ensures BitIsSet(b, j) == if j == i % 8 then false else BitIsSet(bytes[i / 8], j)
    {
      ClearOneBit(bytes[i / 8], i % 8, j);
    }
    ByteUpdateShows(bytes, bits, i, b, false);
  }

  /** The first word that is not all ones, or the number of words. */
  method FindWord(bitmap: array<bv8>, words: nat) returns (off: nat)
    requires bitmap.Length == 8 * words
    ensures off <= words && forall n :: 0 <= n < 64 * off ==> Bit(bitmap[..], n)
    ensures off < words ==> exists b :: 8 * off <= b < 8 * off + 8 && bitmap[b] != 0xFF
  {
    off := 0;
    while off < words
      invariant off <= words && forall b :: 0 <= b < 8 * off ==> bitmap[b] == 0xFF
    {
      var p := 8 * off;
      if !(bitmap[p] == 0xFF && bitmap[p + 1] == 0xFF && bitmap[p + 2] == 0xFF && bitmap[p + 3] == 0xFF
           && bitmap[p + 4] == 0xFF && bitmap[p + 5] == 0xFF && bitmap[p + 6] == 0xFF && bitmap[p + 7] == 0xFF) {
        break;
      }
      off := off + 1;
    }
    forall n | 0 <= n < 64 * off
      ensures Bit(bitmap[..], n)
    {
      FullByte(bitmap[n / 8]);
    }
  }

  /** The lowest clear bit of a byte; 8 if there is none. */
  method FindBit(b: bv8) returns (k: nat)
    ensures k <= 8 && (forall j :: 0 <= j < k ==> BitIsSet(b, j)) && (k < 8 ==> !BitIsSet(b, k))
  {
    k := 0;
    while k < 8
      invariant k <= 8 && forall j :: 0 <= j < k ==> BitIsSet(b, j)
    {
      if !BitIsSet(b, k) {
        break;
      }
      k := k + 1;
    }
  }

  /** The bit number of the lowest clear bit in word `off`, which has one. */
  method FindInWord(bitmap: array<bv8>, off: nat) returns (i: nat)
    requires 8 * off + 8 <= bitmap.Length && exists b :: 8 * off <= b < 8 * off + 8 && bitmap[b] != 0xFF
    ensures 64 * off <= i < 64 * off + 64 && !Bit(bitmap[..], i)
    ensures forall n :: 64 * off <= n < i ==> Bit(bitmap[..], n)
  {
    var byte := 8 * off;
    var k := FindBit(bitmap[byte]);
    while k == 8
      invariant 8 * off <= byte < 8 * off + 8 && k <= 8
      invariant forall b :: 8 * off <= b < byte ==> bitmap[b] == 0xFF
      invariant (forall j :: 0 <= j < k ==> BitIsSet(bitmap[byte], j)) && (k < 8 ==> !BitIsSet(bitmap[byte], k))
      decreases 8 * off + 8 - byte, k
    {
      FullByte(bitmap[byte]);
      byte := byte + 1;
      k := FindBit(bitmap[byte]);
    }
    i := 8 * byte + k;
    assert i / 8 == byte && i % 8 == k;
    forall n | 64 * off <= n < i
      ensures Bit(bitmap[..], n)
    {
      FullByte(bitmap[n / 8]);
    }
  }

  /** set_bit: takes the lowest clear bit below `bitMax`, or returns -1 and changes nothing. */
  method SetBit(bitmap: array<bv8>, bitMax: nat, ghost bits: seq<bool>) returns (ret: int)
    requires bitmap.Length % 8 == 0 && bitMax == |bits| && Shows(bitmap[..], bits)
    modifies bitmap
    ensures LowestClear(bits) == |bits| ==> ret == -1 && Shows(bitmap[..], bits)
    ensures LowestClear(bits) < |bits| ==> ret == LowestClear(bits) && Shows(bitmap[..], bits[ret := true])
  {
    var words := bitmap.Length / 8;
    var off := FindWord(bitmap, words);
    if off == words {
      forall n | 0 <= n < |bits| ensures bits[n] { assert Bit(bitmap[..], n); }
      LowestIsLowest(bits, |bits|);
      return -1;
    }
    var i := FindInWord(bitmap, off);
    forall n | 0 <= n < |bits| && n < i ensures bits[n] { assert Bit(bitmap[..], n); }
    if i >= bitMax {
      LowestIsLowest(bits, |bits|);
      return -1;
    }
    LowestIsLowest(bits, i);
    SetShows(bitmap[..], bits, i);
    bitmap[i / 8] := bitmap[i / 8] | Mask(i % 8);
    return i;
  }

  /** The bit clearing of mpu_malloc_rel_memory: word, byte in the word, bit in the byte. */
  method ClearBit(bitmap: array<bv8>, i: nat, ghost bits: seq<bool>)
    requires i < |bits| && Shows(bitmap[..], bits)
    modifies bitmap
    ensures Shows(bitmap[..], bits[i := false])
  {
    ClearShows(bitmap[..], bits, i);
    var word, inWord := i / 64, i % 64;
    var byte, bit := 8 * word + inWord / 8, inWord % 8;
    assert byte == i / 8 && bit == i % 8;
    bitmap[byte] := bitmap[byte] & !Mask(bit);
  }
}

/** mpu_malloc.c over its own data: units with packed bitmaps, in groups that grow. */
module Malloc {
  import opened MallocSpec
  import opened Bitmap

  class RegionUnit {
    const start: nat
    const bitmap: array<bv8>
    ghost const group: nat
    ghost const class_: nat
    var bitfreenum: int
    var backed: bool
    ghost var model: Unit

    /** group_init and group_add_region: an empty bitmap, every block free. */
    constructor (start: nat, ghost group: nat, i: nat)
      requires i < CLASSES
      ensures Valid(i) && fresh(bitmap) && this.group == group && class_ == i
      ensures model == NewUnit(start, i)
    {
      this.start, this.group, class_ := start, group, i;
      bitmap := new bv8[BitMax(i) / 8](k => 0);
      bitfreenum, backed := BitMax(i), false;
      model := NewUnit(start, i);
      new;
      TableValues(i);
    }

    ghost predicate Valid(i: nat)
      requires i < CLASSES
      reads this, bitmap
    {
      && model.start == start && model.free == bitfreenum && model.backed == backed
      && |model.bits| == BitMax(i) && bitmap.Length == BitMax(i) / 8 && Shows(bitmap[..], model.bits)
    }

    /** The unit's part of mpu_malloc_get_memory: -1, or the block taken. */
    method Take(i: nat) returns (index: int)
      requires i < CLASSES && Valid(i)
      modifies this, bitmap
      ensures Valid(i)
      ensures LowestClear(old(model.bits)) < |old(model.bits)| ==>
                index == LowestClear(old(model.bits)) && model == Taken(old(model))
      ensures LowestClear(old(model.bits)) == |old(model.bits)| ==> index == -1 && model == old(model)
    {
      TableValues(i);
      index := SetBit(bitmap, BitMax(i), model.bits);
      if index >= 0 {
        model := Taken(model);
        backed := true;
        bitfreenum := bitfreenum - 1;
      }
    }

    /** The unit's part of mpu_malloc_rel_memory. */
    method Free(i: nat, k: nat)
      requires i < CLASSES && Valid(i) && k < BitMax(i)
      modifies this, bitmap
      ensures Valid(i) && model == Freed(old(model), k)
    {
      ClearBit(bitmap, k, model.bits);
      model := Freed(model, k);
      bitfreenum := bitfreenum + 1;
    }
  }

  method AddressOf(start: nat, i: nat, index: nat) returns (addr: nat)
    requires i < CLASSES
    ensures addr == start + Offset(i, index)
  {
    TableArithmetic(i, index, 0);
    addr := start + MemSize(i) * index;
  }

  method BlockNumber(offset: nat, i: nat) returns (k: nat)
    requires i < CLASSES
    ensures k == Index(i, offset)
  {
    TableArithmetic(i, 0, offset);
    k := offset / MemSize(i);
  }

  class Allocator {
    var groups: seq<seq<RegionUnit>>
    ghost var model: Groups
    ghost var owner: map<array<bv8>, RegionUnit>
    ghost var repr: set<object>

    constructor ()
      ensures Represents() && model == []
    {
      groups, model, owner, repr := [], [], map[], {};
    }

    ghost predicate UnitAt(j: nat, i: nat)
      requires j < |groups| && i < |groups[j]| && i < CLASSES && j < |model| && i < |model[j]|
      requires groups[j][i] in repr && groups[j][i].bitmap in repr
      reads this, repr
    {
      var u := groups[j][i];
      u.group == j && u.class_ == i && u.Valid(i) && u.model == model[j][i] && u.bitmap in owner && owner[u.bitmap] == u
    }

    /** Every unit object stands for the unit of the model in the same place; the slots recorded in
        the units and the owners of the bitmaps rule out sharing. */
    ghost predicate Represents()
      reads this, repr
    {
      && this !in repr && |model| == |groups|
      && (forall j :: 0 <= j < |groups| ==> |groups[j]| == |model[j]| <= CLASSES)
      && (forall j, i {:trigger groups[j][i]} :: 0 <= j < |groups| && 0 <= i < |groups[j]| ==>
            groups[j][i] in repr && groups[j][i].bitmap in repr && UnitAt(j, i))
    }

    /** search_unit */
    method SearchUnit(addr: nat) returns (place: Place)
      requires Represents() && MallocSpec.Valid(model)
      ensures place == HoldingUnit(model, addr, 0)
    {
      var i := 0;
      while i < CLASSES
        invariant i <= CLASSES && HoldingUnit(model, addr, 0) == HoldingUnit(model, addr, i)
      {
        var j := 0;
        while j < |groups|
          invariant j <= |groups| && HoldingGroup(model, addr, i, 0) == HoldingGroup(model, addr, i, j)
        {
          var unit := groups[j][i];
          assert UnitAt(j, i);
          if unit.start <= addr < unit.start + UNIT_BYTES {
            return At(j, i);
          }
          j := j + 1;
        }
        i := i + 1;
      }
      return Nowhere;
    }

    /** The candidate loop and the search loop of mpu_malloc_get_memory. */
    method SearchFree(size: nat) returns (place: Place)
      requires Represents() && MallocSpec.Valid(model)
      ensures place == Chosen(model, size)
    {
      var i := 0;
      while i < CLASSES && !(MemSize(i) >= size)
        invariant i <= CLASSES && ClassFor(size, 0) == ClassFor(size, i)
      {
        i := i + 1;
      }
      while i < CLASSES
        invariant i <= CLASSES && Chosen(model, size) == FreeUnit(model, i)
      {
        var j := 0;
        while j < |groups|
          invariant j <= |groups| && FreeGroup(model, i, 0) == FreeGroup(model, i, j)
        {
          assert UnitAt(j, i);
          if groups[j][i].bitfreenum > 0 {
            return At(j, i);
          }
          j := j + 1;
        }
        i := i + 1;
      }
      return Nowhere;
    }

    /** Takes the lowest free block of one unit. */
    method TakeAt(j: nat, i: nat) returns (index: int)
      requires Represents() && MallocSpec.Valid(model) && j < |groups| && i < CLASSES
      modifies this, repr
      ensures Represents() && repr == old(repr) && groups == old(groups)
      ensures
        var u := old(model)[j][i];
        if LowestClear(u.bits) < |u.bits|
        then index == LowestClear(u.bits) && model == Update(old(model), j, i, Taken(u))
        else index == -1 && model == Update(old(model), j, i, u)
    {
      var unit := groups[j][i];
      assert UnitAt(j, i);
      index := unit.Take(i);
      model := Update(model, j, i, unit.model);
    }

    /** The part of mpu_malloc_get_memory after a unit has been chosen. */
    method TakeFrom(j: nat, i: nat) returns (addr: nat)
      requires Represents() && MallocSpec.Valid(model) && j < |groups| && i < CLASSES
      modifies this, repr
      ensures Represents() && repr == old(repr) && groups == old(groups)
      ensures model == AllocateFrom(old(model), j, i).0 && addr == AllocateFrom(old(model), j, i).1
    {
      assert UnitAt(j, i);
      var start := groups[j][i].start;
      UpdateSame(model, j, i);
      var index := TakeAt(j, i);
      if index < 0 {
        return 0;
      }
      addr := AddressOf(start, i, index);
      assert addr == BlockAddress(old(model)[j][i], i, index);
    }

    /** mpu_malloc_get_memory */
    method GetMemory(size: nat) returns (addr: nat)
      requires Represents() && MallocSpec.Valid(model)
      modifies this, repr
      ensures Represents() && repr == old(repr) && groups == old(groups)
      ensures model == Allocate(old(model), size).0 && addr == Allocate(old(model), size).1
    {
      var place := SearchFree(size);
      if place.Nowhere? {
        return 0;
      }
      addr := TakeFrom(place.group, place.class_);
    }

    /** The part of mpu_malloc_rel_memory after the unit has been found. */
    method FreeIn(j: nat, i: nat, k: nat)
      requires Represents() && MallocSpec.Valid(model) && j < |groups| && i < CLASSES && k < BitMax(i)
      modifies this, repr
      ensures Represents() && repr == old(repr) && groups == old(groups)
      ensures model == Update(old(model), j, i, Freed(old(model)[j][i], k))
    {
      var unit := groups[j][i];
      assert UnitAt(j, i);
      unit.Free(i, k);
      model := Update(model, j, i, unit.model);
    }

    /** mpu_malloc_rel_memory */
    method ReleaseMemory(addr: nat)
      requires Represents() && MallocSpec.Valid(model)
      modifies this, repr
      ensures Represents() && repr == old(repr) && groups == old(groups)
      ensures model == Release(old(model), addr)
    {
      var place := SearchUnit(addr);
      if place.At? {
        assert UnitAt(place.group, place.class_);
        var start := groups[place.group][place.class_].start;
        var bits := BlockNumber(addr - start, place.class_);
        assert bits == BlockOf(model[place.group][place.class_], place.class_, addr);
        FreeIn(place.group, place.class_, bits);
      }
    }

    /** mpu_malloc_ref_size: asserts that some unit holds the address. */
    method ReferenceSize(addr: nat) returns (size: nat)
      requires Represents() && MallocSpec.Valid(model) && HoldingUnit(model, addr, 0).At?
      ensures size == RefSize(model, addr)
    {
      var place := SearchUnit(addr);
      return MemSize(place.class_);
    }

    /** group_get: the last group if it lacks a unit, else a new group. */
    method GetGroup()
      requires Represents()
      modifies `groups, `model
      ensures Represents() && model == WithRoom(old(model)) && 0 < |groups| && |groups[|groups| - 1]| < CLASSES
    {
      if |groups| == 0 || |groups[|groups| - 1]| == CLASSES {
        groups := groups + [[]];
        model := model + [[]];
        assert forall j :: 0 <= j < |old(groups)| ==> groups[j] == old(groups)[j] && model[j] == old(model)[j];
        forall j, i {:trigger groups[j][i]} | 0 <= j < |groups| && 0 <= i < |groups[j]|
          ensures groups[j][i] in repr && groups[j][i].bitmap in repr && UnitAt(j, i)
        {
          assert old(UnitAt(j, i));
        }
      }
    }

    /** group_add_region: one more unit in the last group. */
    method Attach(start: nat)
      requires Represents() && 0 < |groups| && |groups[|groups| - 1]| < CLASSES
      modifies this
      ensures Represents() && fresh(repr - old(repr))
      ensures
        var last := old(model)[|old(model)| - 1];
        model == old(model)[|old(model)| - 1 := last + [NewUnit(start, |last|)]]
    {
      var j := |groups| - 1;
      var i := |groups[j]|;
      var unit := new RegionUnit(start, j, i);
      groups := groups[j := groups[j] + [unit]];
      model := model[j := model[j] + [unit.model]];
      owner := owner[unit.bitmap := unit];
      repr := repr + {unit, unit.bitmap};
      forall k, l {:trigger groups[k][l]} | 0 <= k < |groups| && 0 <= l < |groups[k]|
        ensures groups[k][l] in repr && groups[k][l].bitmap in repr && UnitAt(k, l)
      {
        assert groups[k][l] == unit || old(UnitAt(k, l));
      }
    }

    /** mpu_malloc_add_region: the next class of the last group, or a new group. */
    method AddRegion(start: nat)
      requires Represents()
      modifies this
      ensures Represents() && model == WithRegion(old(model), start)
      ensures fresh(repr - old(repr))
    {
      GetGroup();
      Attach(start);
    }
  }
}
