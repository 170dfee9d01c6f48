/** The byte ring buffer of src/lib/comm_buffer.c, proved against the queue of bytes it holds. */
module CommFifo {
  import opened Numbers

  datatype Status = Ok | Limit | NoEntry

  /** Position `k` places after `off` in a ring of `max` slots. */
  function Slot(off: nat, k: nat, max: nat): nat
    requires off < max && k <= max
    ensures Slot(off, k, max) < max
  {
    if off + k < max then off + k else off + k - max
  }

  lemma Regroup(taken: seq<byte>, x: byte, rest: seq<byte>)
    ensures taken + ([x] + rest) == taken + [x] + rest
  {
  }

  class Fifo {
    const data: array<byte>
    var count: nat
    var rxOff: nat
    var txOff: nat

    ghost predicate Valid()
      reads this
    {
      && count <= data.Length
      && if data.Length == 0 then rxOff == txOff == 0
         else rxOff < data.Length && txOff == Slot(rxOff, count, data.Length)
    }

    /** The bytes held, oldest first. */
    ghost function Contents(): (s: seq<byte>)
      requires Valid()
      reads this, data
      ensures |s| == count
    {
      seq(count, k requires 0 <= k < count && Valid() reads this, data => data[Slot(rxOff, k, data.Length)])
    }

    /** comm_fifo_buffer_create */
    constructor (size: nat)
      ensures Valid() && Contents() == [] && data.Length == size && fresh(data)
    {
      data := new byte[size];
      count, rxOff, txOff := 0, 0, 0;
    }

    method AddOne(x: byte) returns (status: Status)
      requires Valid()
      modifies this, data
      ensures Valid()
      ensures status == if old(count) < data.Length then Ok else Limit
      ensures Contents() == old(Contents()) + if status == Ok then [x] else []
    {
      if count >= data.Length {
        return Limit;
      }
      data[txOff] := x;
      txOff := txOff + 1;
      if txOff >= data.Length {
        txOff := 0;
      }
      count := count + 1;
      return Ok;
    }

    /** comm_fifo_buffer_add: as many bytes as fit, in order. */
    method Add(bytes: seq<byte>) returns (status: Status, res: nat)
      requires Valid()
      modifies this, data
      ensures Valid()
      ensures res == Min(|bytes|, data.Length - old(count)) && Contents() == old(Contents()) + bytes[..res]
      ensures status == if old(count) < data.Length && res == |bytes| then Ok else Limit
    {
      res := 0;
      if count >= data.Length {
        return Limit, 0;
      }
      while res < |bytes|
        invariant Valid() && res <= |bytes| && count == old(count) + res && Contents() == old(Contents()) + bytes[..res]
      {
        var one := AddOne(bytes[res]);
        if one != Ok {
          return one, res;
        }
        res := res + 1;
      }
      return Ok, res;
    }

    method GetOne() returns (status: Status, x: byte)
      requires Valid()
      modifies this
      ensures Valid()
      ensures status == if old(count) > 0 then Ok else NoEntry
      ensures old(Contents()) == (if status == Ok then [x] else []) + Contents()
    {
      if count == 0 {
        return NoEntry, 0;
      }
      x := data[rxOff];
      rxOff := rxOff + 1;
      if rxOff >= data.Length {
        rxOff := 0;
      }
      count := count - 1;
      return Ok, x;
    }

    /** comm_fifo_buffer_get: the oldest bytes, as many as there are. */
    method Get(len: nat) returns (status: Status, bytes: seq<byte>)
      requires Valid()
      modifies this
      ensures Valid()
      ensures |bytes| == Min(len, old(count)) && old(Contents()) == bytes + Contents()
      ensures status == if old(count) > 0 && |bytes| == len then Ok else NoEntry
    {
      bytes := [];
      if count == 0 {
        return NoEntry, bytes;
      }
      ghost var all := Contents();
      while |bytes| < len
        invariant Valid() && |bytes| <= len && count == |all| - |bytes| && all == bytes + Contents()
      {
        var one, x := GetOne();
        if one != Ok {
          return one, bytes;
        }
        Regroup(bytes, x, Contents());
        bytes := bytes + [x];
      }
      return Ok, bytes;
    }

    /** comm_fifo_buffer_close */
    method Close()
      requires Valid()
      modifies this
      ensures Valid() && Contents() == []
    {
      count, rxOff, txOff := 0, 0, 0;
    }
  }
}
