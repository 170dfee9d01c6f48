/**
  One serial FIFO channel: src/device/peripheral/serial/fifo/serial_fifo.c.  The CPU side runs on
  device clocks; a transmit and a receive thread move bytes to and from host pipes.
 */
module SerialFifo {
  import opened Numbers
  import opened CommFifo

  /** SERIAL_FIFO_WR_BUFFER_LEN */
  const DEV_LEN: nat := 16
  const CMD_NONE: byte := 0
  const CMD_MOVE: byte := 1
  const CMD_TX: byte := 2
  const CAN_DATA: byte := 0
  const DATA_FULL: byte := 1
  const NO_DATA: byte := 0
  const DATA_IN: byte := 1

  /** The channel's registers in guest memory. */
  datatype Registers = Registers(writeStatus: byte, writeCmd: byte, writePtr: byte,
                                 readStatus: byte, readCmd: byte, readPtr: byte)

  /** The bytes in rd, wr and wr_dev_buffer, oldest first, and the size of rd and of wr. */
  datatype Buffers = Buffers(rd: seq<byte>, wr: seq<byte>, dev: seq<byte>, size: nat)

  datatype Cpu = Cpu(b: Buffers, r: Registers)

  predicate Fits(b: Buffers) {
    |b.rd| <= b.size && |b.wr| <= b.size && |b.dev| <= DEV_LEN
  }

  // ---- One device clock, as a function ----

  function ReadStatus(c: Cpu): Cpu {
    c.(r := c.r.(readStatus := if c.b.rd == [] then NO_DATA else DATA_IN))
  }

  function ReadCommand(c: Cpu): Cpu {
    if c.r.readCmd != CMD_MOVE then c
    else if c.b.rd == [] then c.(r := c.r.(readCmd := CMD_NONE))
    else Cpu(c.b.(rd := c.b.rd[1..]), c.r.(readCmd := CMD_NONE, readPtr := c.b.rd[0]))
  }

  function WriteStatus(c: Cpu): Cpu {
    c.(r := c.r.(writeStatus := if |c.b.dev| < DEV_LEN then CAN_DATA else DATA_FULL))
  }

  /** What a transmit command moves. */
  function Batch(b: Buffers): (n: nat)
    requires Fits(b)
    ensures n <= |b.dev| && |b.wr| + n <= b.size && (n == |b.dev| || |b.wr| + n == b.size)
  {
    Min(|b.dev|, b.size - |b.wr|)
  }

  function WriteCommand(c: Cpu): Cpu
    requires Fits(c.b)
  {
    if c.r.writeCmd == CMD_MOVE then
      Cpu(if |c.b.dev| < DEV_LEN then c.b.(dev := c.b.dev + [c.r.writePtr]) else c.b, c.r.(writeCmd := CMD_NONE))
    else if c.r.writeCmd == CMD_TX then
      var n := Batch(c.b);
      Cpu(c.b.(wr := c.b.wr + c.b.dev[..n], dev := c.b.dev[n..]),
          if n == |c.b.dev| then c.r.(writeCmd := CMD_NONE) else c.r)
    else c
  }

  /** A transmit command moves bytes from the front of the device buffer to the end of `wr`, and stops only when the
      device buffer is empty, which ends the command, or `wr` is full, which does not. */
  lemma TransmitMovesAll(c: Cpu)
    requires Fits(c.b) && c.r.writeCmd == CMD_TX
    ensures
      var next := WriteCommand(c);
      && c.b.wr <= next.b.wr && next.b.wr + next.b.dev == c.b.wr + c.b.dev
      && (next.b.dev == [] || |next.b.wr| == c.b.size) && Fits(next.b)
      && next.b.rd == c.b.rd && next.b.size == c.b.size
      && next.r == if next.b.dev == [] then c.r.(writeCmd := CMD_NONE) else c.r
  {
    var n := Batch(c.b);
    assert c.b.dev[..n] + c.b.dev[n..] == c.b.dev;
  }

  /** One clock of the write side: the status tells of room before the command, a move appends its byte if there was
      room and is over either way, and only move and transmit commands do anything. */
  lemma WriteClock(c: Cpu)
    requires Fits(c.b)
    ensures
      var next := WriteCommand(WriteStatus(c));
      && next.r.writeStatus == (if |c.b.dev| < 16 then 0 else 1) && next.r.writePtr == c.r.writePtr
      && (c.r.writeCmd == 1 ==>
            && next.b == c.b.(dev := next.b.dev) && next.r.writeCmd == 0
            && next.b.dev == c.b.dev + if |c.b.dev| < 16 then [c.r.writePtr] else [])
      && (c.r.writeCmd != 1 && c.r.writeCmd != 2 ==> next.b == c.b && next.r.writeCmd == c.r.writeCmd)
      && next.r == c.r.(writeStatus := next.r.writeStatus, writeCmd := next.r.writeCmd)
  {
  }

  /** One clock of the read side: the status tells of data before the command, and a move takes the oldest byte if there
      is one and is over either way. */
  lemma ReadClock(c: Cpu)
    ensures
      var next := ReadCommand(ReadStatus(c));
      && next.r.readStatus == (if c.b.rd == [] then 0 else 1)
      && next.b == c.b.(rd := next.b.rd)
      && (if c.r.readCmd == 1 && c.b.rd != [] then c.b.rd == [next.r.readPtr] + next.b.rd
          else next.b.rd == c.b.rd && next.r.readPtr == c.r.readPtr)
      && next.r.readCmd == (if c.r.readCmd == 1 then 0 else c.r.readCmd)
      && next.r == c.r.(readStatus := next.r.readStatus, readCmd := next.r.readCmd, readPtr := next.r.readPtr)
  {
  }

  // ---- The same clock on the ring buffers ----

  class Channel {
    const rd: Fifo
    const wr: Fifo
    const dev: Fifo
    var registers: Registers

    constructor (size: nat, registers: Registers)
      ensures Valid() && View() == Cpu(Buffers([], [], [], size), registers)
      ensures fresh(rd) && fresh(rd.data) && fresh(wr) && fresh(wr.data) && fresh(dev) && fresh(dev.data)
    {
      this.registers := registers;
      rd := new Fifo(size);
      wr := new Fifo(size);
      dev := new Fifo(DEV_LEN);
    }

    ghost predicate Valid()
      reads this, rd, wr, dev
    {
      && rd != wr && rd != dev && wr != dev && rd.data != wr.data && rd.data != dev.data && wr.data != dev.data
      && rd.Valid() && wr.Valid() && dev.Valid() && rd.data.Length == wr.data.Length && dev.data.Length == DEV_LEN
    }

    ghost function View(): (c: Cpu)
      requires Valid()
      reads this, rd, rd.data, wr, wr.data, dev, dev.data
      ensures Fits(c.b)
    {
      Cpu(Buffers(rd.Contents(), wr.Contents(), dev.Contents(), wr.data.Length), registers)
    }

    /** do_serial_fifo_cpu_read */
    method CpuRead()
      requires Valid()
      modifies `registers, rd
      ensures Valid() && View() == ReadCommand(ReadStatus(old(View())))
    {
      registers := registers.(readStatus := if rd.count == 0 then NO_DATA else DATA_IN);
      if registers.readCmd == CMD_MOVE {
        var status, data := rd.GetOne();
        if status == Ok {
          registers := registers.(readPtr := data);
        }
        registers := registers.(readCmd := CMD_NONE);
      }
    }

    /** The loop of do_serial_fifo_cpu_write_tx. */
    method Transmit()
      requires Valid()
      modifies wr, wr.data, dev
      ensures Valid() && registers == old(registers)
      ensures
        var b, n := old(View()).b, Batch(old(View()).b);
        View().b == b.(wr := b.wr + b.dev[..n], dev := b.dev[n..])
    {
      ghost var b := View().b;
      var count, i := dev.count, 0;
      while i < count && wr.count < wr.data.Length
        invariant Valid() && i <= count == |b.dev| && rd.Contents() == b.rd
        invariant dev.Contents() == b.dev[i..] && wr.Contents() == b.wr + b.dev[..i]
      {
        var status, data := dev.GetOne();
        if status != Ok {
          break;
        }
        status := wr.AddOne(data);
        i := i + 1;
      }
    }

    /** do_serial_fifo_cpu_write */
    method CpuWrite()
      requires Valid()
      modifies `registers, wr, wr.data, dev, dev.data
      ensures Valid() && View() == WriteCommand(WriteStatus(old(View())))
    {
      registers := registers.(writeStatus := if dev.count < dev.data.Length then CAN_DATA else DATA_FULL);
      if registers.writeCmd == CMD_MOVE {
        var status := dev.AddOne(registers.writePtr);
        registers := registers.(writeCmd := CMD_NONE);
      } else if registers.writeCmd == CMD_TX {
        Transmit();
        if dev.count == 0 {
          registers := registers.(writeCmd := CMD_NONE);
        }
      }
    }
  }

  // ---- Every interleaving ----

  /** The transmit thread: looking at wr.count, or having seen it nonzero. */
  datatype Tx = TxLooks | TxGets

  /** The receive thread: looking at rd, blocked in read(), or about to add the byte it read. */
  datatype Rx = RxLooks | RxReads | RxAdds(data: byte)

  /** `accepted`, `sent`, `received` and `consumed` record the bytes that entered wr_dev_buffer, were taken
      for the host, came from the host, and reached the read register; `failed` is a failed ASSERT. */
  datatype System = System(cpu: Cpu, tx: Tx, rx: Rx, failed: bool,
                           accepted: seq<byte>, sent: seq<byte>, received: seq<byte>, consumed: seq<byte>)

  datatype Event =
    | GuestWrites(cmd: byte, ptr: byte)
    | GuestReads(readCmd: byte)
    | ClockReadStatus
    | ClockReadCommand
    | ClockWriteStatus
    | ClockWriteCommand
    | TxSeesData
    | TxGet
    | RxSeesRoom
    | RxGot(data: byte)
    | RxAdd

  predicate Enabled(s: System, e: Event) {
    match e
    case TxSeesData => s.tx == TxLooks && s.cpu.b.wr != []
    case TxGet => s.tx == TxGets
    case RxSeesRoom => s.rx == RxLooks && |s.cpu.b.rd| < s.cpu.b.size
    case RxGot(_) => s.rx == RxReads
    case RxAdd => s.rx.RxAdds?
    case _ => true
  }

  function Apply(s: System, e: Event): System
    requires Fits(s.cpu.b) && Enabled(s, e)
  {
    var c := s.cpu;
    match e
    case GuestWrites(cmd, ptr) => s.(cpu := c.(r := c.r.(writeCmd := cmd, writePtr := ptr)))
    case GuestReads(cmd) => s.(cpu := c.(r := c.r.(readCmd := cmd)))
    case ClockReadStatus => s.(cpu := ReadStatus(c))
    case ClockReadCommand =>
      s.(cpu := ReadCommand(c),
         consumed := s.consumed + if c.r.readCmd == CMD_MOVE && c.b.rd != [] then [ReadCommand(c).r.readPtr] else [])
    case ClockWriteStatus => s.(cpu := WriteStatus(c))
    case ClockWriteCommand =>
      s.(cpu := WriteCommand(c),
         accepted := s.accepted + if c.r.writeCmd == CMD_MOVE && |c.b.dev| < DEV_LEN then [c.r.writePtr] else [])
    case TxSeesData => s.(tx := TxGets)
    case TxGet =>
      if c.b.wr == [] then s.(failed := true)
      else s.(tx := TxLooks, cpu := c.(b := c.b.(wr := c.b.wr[1..])), sent := s.sent + [c.b.wr[0]])
    case RxSeesRoom => s.(rx := RxReads)
    case RxGot(x) => s.(rx := RxAdds(x), received := s.received + [x])
    case RxAdd =>
      if |c.b.rd| >= c.b.size then s.(failed := true)
      else s.(rx := RxLooks, cpu := c.(b := c.b.(rd := c.b.rd + [s.rx.data])))
  }

  /** The byte the receive thread holds. */
  function InHand(rx: Rx): seq<byte> {
    if rx.RxAdds? then [rx.data] else []
  }

  /** Bytes are conserved in order both ways, no ASSERT has failed, and what a thread saw still holds. */
  predicate Inv(s: System) {
    && Fits(s.cpu.b) && !s.failed
    && s.accepted == s.sent + s.cpu.b.wr + s.cpu.b.dev
    && s.received == s.consumed + s.cpu.b.rd + InHand(s.rx)
    && (s.tx == TxGets ==> s.cpu.b.wr != [])
    && (s.rx != RxLooks ==> |s.cpu.b.rd| < s.cpu.b.size)
  }

  lemma ReadKeeps(s: System)
    requires Inv(s)
    ensures Inv(Apply(s, ClockReadCommand))
  {
    var rd := s.cpu.b.rd;
    if s.cpu.r.readCmd == CMD_MOVE && rd != [] {
      assert s.consumed + [rd[0]] + rd[1..] == s.consumed + rd;
    }
  }

  lemma WriteKeeps(s: System)
    requires Inv(s)
    ensures Inv(Apply(s, ClockWriteCommand))
  {
    var b := s.cpu.b;
    if s.cpu.r.writeCmd == CMD_TX {
      var n := Batch(b);
      assert s.sent + (b.wr + b.dev[..n]) + b.dev[n..] == s.sent + b.wr + b.dev by {
        assert b.dev[..n] + b.dev[n..] == b.dev;
      }
    }
  }

  lemma StepKeeps(s: System, e: Event)
    requires Inv(s) && Enabled(s, e)
    ensures Inv(Apply(s, e))
  {
    match e
    case ClockReadCommand => ReadKeeps(s);
    case ClockWriteCommand => WriteKeeps(s);
    case TxGet => assert s.sent + [s.cpu.b.wr[0]] + s.cpu.b.wr[1..] == s.sent + s.cpu.b.wr;
    case _ =>
  }

  /** What each event adds to the record: a byte is accepted, sent, received or consumed by its own event and no other,
      and the threads move on. */
  lemma StepRecords(s: System, e: Event)
    requires Inv(s) && Enabled(s, e)
    ensures
      var t, c := Apply(s, e), s.cpu;
      && t.accepted == s.accepted
           + (if e.ClockWriteCommand? && c.r.writeCmd == 1 && |c.b.dev| < 16 then [c.r.writePtr] else [])
      && |t.sent| == |s.sent| + (if e.TxGet? then 1 else 0)
      && t.received == s.received + (if e.RxGot? then [e.data] else [])
      && |t.consumed| == |s.consumed|
           + (if e.ClockReadCommand? && c.r.readCmd == 1 && c.b.rd != [] then 1 else 0)
      && (t.tx == TxGets <==> e.TxSeesData? || (s.tx == TxGets && !e.TxGet?))
      && (t.rx == RxReads <==> e.RxSeesRoom? || (s.rx == RxReads && !e.RxGot?))
      && (t.rx.RxAdds? <==> e.RxGot? || (s.rx.RxAdds? && !e.RxAdd?))
  {
  }

  lemma InitialKeeps(size: nat, r: Registers)
    ensures Inv(System(Cpu(Buffers([], [], [], size), r), TxLooks, RxLooks, false, [], [], [], []))
  {
  }

  predicate Possible(s: System, events: seq<Event>)
    requires Inv(s)
    decreases |events|
  {
    |events| > 0 ==> Enabled(s, events[0]) && (StepKeeps(s, events[0]); Possible(Apply(s, events[0]), events[1..]))
  }

  function After(s: System, events: seq<Event>): System
    requires Inv(s) && Possible(s, events)
    decreases |events|
  {
    if events == [] then s else StepKeeps(s, events[0]); After(Apply(s, events[0]), events[1..])
  }

  /** Over every interleaving of the guest, the clock and both threads, no byte is lost, repeated or
      reordered between the device buffer and the host, and neither ASSERT fails. */
  lemma {:induction false} RunKeeps(s: System, events: seq<Event>)
    requires Inv(s) && Possible(s, events)
    ensures Inv(After(s, events))
    decreases |events|
  {
    if events != [] {
      StepKeeps(s, events[0]);
      RunKeeps(Apply(s, events[0]), events[1..]);
    }
  }

  /** When an ASSERT fails, in any state: taking a byte for the host from an empty buffer, or adding one to a full
      buffer. */
  lemma AssertFailsIff(s: System, e: Event)
    requires Fits(s.cpu.b) && Enabled(s, e) && !s.failed
    ensures Apply(s, e).failed <==>
            (e.TxGet? && s.cpu.b.wr == []) || (e.RxAdd? && |s.cpu.b.rd| >= s.cpu.b.size)
  {
  }

  // ---- Nothing is held up ----

  lemma {:induction false} RunsInTurn(s: System, first: seq<Event>, second: seq<Event>)
    requires Inv(s) && Possible(s, first) && (RunKeeps(s, first); Possible(After(s, first), second))
    ensures Possible(s, first + second)
    ensures After(s, first + second) == (RunKeeps(s, first); After(After(s, first), second))
    decreases |first|
  {
    if first == [] {
      assert first + second == second;
    } else {
      assert (first + second)[0] == first[0] && (first + second)[1..] == first[1..] + second;
      StepKeeps(s, first[0]);
      RunKeeps(s, first);
      RunsInTurn(Apply(s, first[0]), first[1..], second);
    }
  }

  /** One byte sent by the transmit thread. */
  lemma SendsOne(s: System)
    requires Inv(s) && s.tx == TxLooks && s.cpu.b.wr != []
    ensures Possible(s, [TxSeesData, TxGet])
    ensures After(s, [TxSeesData, TxGet]) ==
            s.(cpu := s.cpu.(b := s.cpu.b.(wr := s.cpu.b.wr[1..])), sent := s.sent + [s.cpu.b.wr[0]])
  {
    var t := Apply(s, TxSeesData);
    StepKeeps(s, TxSeesData);
    StepKeeps(t, TxGet);
    assert [TxSeesData, TxGet][1..] == [TxGet] && [TxGet][1..] == [];
    assert Possible(t, [TxGet]) && After(t, [TxGet]) == Apply(t, TxGet);
  }

  /** The transmit thread alone sends all that the write FIFO holds, in order. */
  lemma {:induction false} TransmitThreadDrains(s: System) returns (events: seq<Event>)
    requires Inv(s) && s.tx == TxLooks
    ensures Possible(s, events)
    ensures After(s, events) == s.(cpu := s.cpu.(b := s.cpu.b.(wr := [])), sent := s.sent + s.cpu.b.wr)
    decreases |s.cpu.b.wr|
  {
    events := [];
    if s.cpu.b.wr != [] {
      SendsOne(s);
      var one := [TxSeesData, TxGet];
      RunKeeps(s, one);
      var rest := TransmitThreadDrains(After(s, one));
      RunsInTurn(s, one, rest);
      assert s.sent + [s.cpu.b.wr[0]] + s.cpu.b.wr[1..] == s.sent + s.cpu.b.wr;
      events := one + rest;
    } else {
      assert s.sent + s.cpu.b.wr == s.sent;
    }
  }

  /** A guest that asks for transmission, one clock, and the transmit thread: what did not fit stays for the next
      turn. */
  lemma TransmitTurn(s: System) returns (events: seq<Event>)
    requires Inv(s) && s.tx == TxLooks && s.cpu.b.wr == [] && s.cpu.b.dev != [] && 0 < s.cpu.b.size
    ensures Possible(s, events)
    ensures
      var t := After(s, events);
      && Inv(t) && t.tx == TxLooks && t.cpu.b.wr == [] && t.cpu.b.size == s.cpu.b.size
      && |t.cpu.b.dev| < |s.cpu.b.dev| && t.accepted == s.accepted
  {
    var ask, clock := GuestWrites(CMD_TX, 0), ClockWriteCommand;
    var asked := Apply(s, ask);
    StepKeeps(s, ask);
    var clocked := Apply(asked, clock);
    StepKeeps(asked, clock);
    TransmitMovesAll(asked.cpu);
    assert [ask, clock][1..] == [clock] && [clock][1..] == [];
    assert Possible(asked, [clock]) && After(asked, [clock]) == clocked;
    var sends := TransmitThreadDrains(clocked);
    RunsInTurn(s, [ask, clock], sends);
    events := [ask, clock] + sends;
    RunKeeps(s, events);
  }

  /** Nothing that was accepted gets stuck: from every reachable state there is a run after which all of it has been
      sent. */
  lemma {:induction false} AllCanBeSent(s: System) returns (events: seq<Event>)
    requires Inv(s) && 0 < s.cpu.b.size
    ensures Possible(s, events)
    ensures After(s, events).sent == After(s, events).accepted == s.accepted
    decreases |s.cpu.b.dev|, |s.cpu.b.wr|
  {
    if s.tx == TxGets {
      StepKeeps(s, TxGet);
      var rest := AllCanBeSent(Apply(s, TxGet));
      events := [TxGet] + rest;
      assert events[1..] == rest;
    } else if s.cpu.b.wr != [] {
      var first := TransmitThreadDrains(s);
      RunKeeps(s, first);
      var rest := AllCanBeSent(After(s, first));
      RunsInTurn(s, first, rest);
      events := first + rest;
    } else if s.cpu.b.dev != [] {
      var first := TransmitTurn(s);
      var rest := AllCanBeSent(After(s, first));
      RunKeeps(s, first);
      RunsInTurn(s, first, rest);
      events := first + rest;
    } else {
      events := [];
      assert s.sent + s.cpu.b.wr + s.cpu.b.dev == s.sent;
    }
  }

  /** A byte from the host reaches the read FIFO if there is room. */
  lemma ReceiveThreadDelivers(s: System, x: byte)
    requires Inv(s) && s.rx == RxLooks && |s.cpu.b.rd| < s.cpu.b.size
    ensures Possible(s, [RxSeesRoom, RxGot(x), RxAdd])
    ensures After(s, [RxSeesRoom, RxGot(x), RxAdd]) ==
            s.(cpu := s.cpu.(b := s.cpu.b.(rd := s.cpu.b.rd + [x])), received := s.received + [x])
  {
    var saw := Apply(s, RxSeesRoom);
    StepKeeps(s, RxSeesRoom);
    var got := Apply(saw, RxGot(x));
    StepKeeps(saw, RxGot(x));
    StepKeeps(got, RxAdd);
    assert [RxSeesRoom, RxGot(x), RxAdd][1..] == [RxGot(x), RxAdd];
    assert [RxGot(x), RxAdd][1..] == [RxAdd] && [RxAdd][1..] == [];
    assert Possible(got, [RxAdd]) && After(got, [RxAdd]) == Apply(got, RxAdd);
    assert Possible(saw, [RxGot(x), RxAdd]) && After(saw, [RxGot(x), RxAdd]) == Apply(got, RxAdd);
  }

  // ---- The status registers ----

  /** After a clock, the write status says there is room in a full buffer exactly when the clock itself
      filled it. */
  lemma WriteStatusStaleIff(c: Cpu)
    requires Fits(c.b)
    ensures
      var next := WriteCommand(WriteStatus(c));
      next.r.writeStatus == CAN_DATA && |next.b.dev| == DEV_LEN <==>
        |c.b.dev| == DEV_LEN - 1 && c.r.writeCmd == CMD_MOVE
  {
  }

  /** So a guest that moves a byte only when the status allows it, as the header advises, loses that byte
      exactly when the previous clock filled the buffer. */
  lemma AllowedMoveIsLostIff(c: Cpu, x: byte)
    requires Fits(c.b) && WriteCommand(WriteStatus(c)).r.writeStatus == CAN_DATA
    ensures
      var next := WriteCommand(WriteStatus(c));
      var moved := next.(r := next.r.(writeCmd := CMD_MOVE, writePtr := x));
      Fits(next.b)
      && (WriteCommand(WriteStatus(moved)).b.dev == next.b.dev + [x] <==>
          !(|c.b.dev| == DEV_LEN - 1 && c.r.writeCmd == CMD_MOVE))
  {
  }

  /** Likewise a guest that reads only when the status shows data gets no new byte exactly when the previous
      clock took the last one; the register then still holds that byte. */
  lemma AllowedReadRepeatsIff(c: Cpu)
    requires ReadCommand(ReadStatus(c)).r.readStatus == DATA_IN
    ensures
      var next := ReadCommand(ReadStatus(c));
      var again := ReadCommand(ReadStatus(next.(r := next.r.(readCmd := CMD_MOVE))));
      && (again.b == next.b <==> |c.b.rd| == 1 && c.r.readCmd == CMD_MOVE)
      && (again.b == next.b ==> again.r.readPtr == next.r.readPtr == c.b.rd[0])
  {
  }

  // ---- A guest that follows the write status ----

  /** The guest asks for one byte to be moved, and the device gets one clock. */
  function Move(x: byte): seq<Event> {
    [GuestWrites(CMD_MOVE, x), ClockWriteStatus, ClockWriteCommand]
  }

  /** `n` zeros, then `x`. */
  function Moves(n: nat, x: byte): seq<Event> {
    if n == 0 then Move(x) else Move(0) + Moves(n - 1, x)
  }

  predicate Allowed(s: System, e: Event) {
    e.GuestWrites? && e.cmd == CMD_MOVE ==> s.cpu.r.writeStatus == CAN_DATA
  }

  /** Every byte of the run is moved only when the status register says that there is room. */
  predicate FollowsStatus(s: System, events: seq<Event>)
    requires Inv(s) && Possible(s, events)
    decreases |events|
  {
    |events| > 0 ==>
      Allowed(s, events[0]) && (StepKeeps(s, events[0]); FollowsStatus(Apply(s, events[0]), events[1..]))
  }

  function Moved(s: System, x: byte): (t: System)
    requires Inv(s)
    ensures Inv(t)
  {
    var asked := Apply(s, GuestWrites(CMD_MOVE, x));
    WriteKeeps(Apply(asked, ClockWriteStatus));
    Apply(Apply(asked, ClockWriteStatus), ClockWriteCommand)
  }

  lemma EventStep(s: System, e: Event, rest: seq<Event>)
    requires Inv(s) && Enabled(s, e) && Allowed(s, e) && Inv(Apply(s, e)) && Possible(Apply(s, e), rest)
    ensures Possible(s, [e] + rest) && After(s, [e] + rest) == After(Apply(s, e), rest)
    ensures FollowsStatus(s, [e] + rest) <==> FollowsStatus(Apply(s, e), rest)
  {
    assert ([e] + rest)[1..] == rest;
  }

  lemma MoveStep(s: System, x: byte, rest: seq<Event>)
    requires Inv(s) && s.cpu.r.writeStatus == CAN_DATA && Possible(Moved(s, x), rest)
    ensures Possible(s, Move(x) + rest) && After(s, Move(x) + rest) == After(Moved(s, x), rest)
    ensures FollowsStatus(s, Move(x) + rest) <==> FollowsStatus(Moved(s, x), rest)
  {
    var asked := Apply(s, GuestWrites(CMD_MOVE, x));
    EventStep(Apply(asked, ClockWriteStatus), ClockWriteCommand, rest);
    EventStep(asked, ClockWriteStatus, [ClockWriteCommand] + rest);
    EventStep(s, GuestWrites(CMD_MOVE, x), [ClockWriteStatus] + ([ClockWriteCommand] + rest));
    assert Move(x) + rest == [GuestWrites(CMD_MOVE, x)] + ([ClockWriteStatus] + ([ClockWriteCommand] + rest));
  }

  lemma {:induction false} MovesFill(s: System, n: nat, x: byte)
    requires Inv(s) && |s.cpu.b.dev| + n == DEV_LEN && s.cpu.r.writeStatus == CAN_DATA
    ensures Possible(s, Moves(n, x)) && FollowsStatus(s, Moves(n, x))
    ensures After(s, Moves(n, x)).accepted == s.accepted + seq(n, _ => 0)
    decreases n
  {
    if n == 0 {
      assert Move(x) + [] == Move(x);
      MoveStep(s, x, []);
    } else {
      var t := Moved(s, 0);
      assert t.accepted == s.accepted + [0] && t.cpu.r.writeStatus == CAN_DATA;
      MovesFill(t, n - 1, x);
      MoveStep(s, 0, Moves(n - 1, x));
      assert [0] + seq(n - 1, _ => 0) == seq(n, _ => 0 as byte);
    }
  }

  /** From the initial state: sixteen zeros fill the buffer, the status still says that there is room, and the byte
      the guest then moves is lost. */
  lemma AllowedByteIsLost(size: nat, r: Registers)
    requires r.writeStatus == CAN_DATA
    ensures
      var start := System(Cpu(Buffers([], [], [], size), r), TxLooks, RxLooks, false, [], [], [], []);
      && Inv(start) && Possible(start, Moves(DEV_LEN, 1)) && FollowsStatus(start, Moves(DEV_LEN, 1))
      && After(start, Moves(DEV_LEN, 1)).accepted == seq(DEV_LEN, _ => 0)
  {
    var start := System(Cpu(Buffers([], [], [], size), r), TxLooks, RxLooks, false, [], [], [], []);
    InitialKeeps(size, r);
    MovesFill(start, DEV_LEN, 1);
  }

  /** The guest asks for a byte, and the device gets one clock. */
  function AskedToRead(s: System): System
    requires Fits(s.cpu.b)
  {
    Apply(Apply(Apply(s, GuestReads(CMD_MOVE)), ClockReadStatus), ClockReadCommand)
  }

  /** From the initial state: one byte arrives, and a guest that follows the read status reads it twice. */
  lemma AllowedReadRepeats(size: nat, r: Registers, x: byte)
    requires 0 < size
    ensures
      var start := System(Cpu(Buffers([], [], [], size), r), TxLooks, RxLooks, false, [], [], [], []);
      var shown := Apply(Apply(Apply(Apply(start, RxSeesRoom), RxGot(x)), RxAdd), ClockReadStatus);
      var once := AskedToRead(shown);
      var twice := AskedToRead(once);
      && shown.cpu.r.readStatus == DATA_IN && once.cpu.r.readStatus == DATA_IN
      && once.cpu.r.readPtr == x && twice.cpu.r.readPtr == x
      && twice.received == [x] && twice.consumed == [x]
  {
    var start := System(Cpu(Buffers([], [], [], size), r), TxLooks, RxLooks, false, [], [], [], []);
    var added := Apply(Apply(Apply(start, RxSeesRoom), RxGot(x)), RxAdd);
    assert added.cpu.b.rd == [x];
  }
}
