/**
  A whole debugging session: the loop of gdb_rsp_run and what dispatch_packet does to it.  A session ends with the
  connection, with a detach or kill packet, or with an empty packet.  While the target runs, await_stop reads and
  drops what the peer sends.
 */
module GdbSession {
  import opened Numbers
  import opened GdbPacket

  const LOWER_C: byte := 0x63
  const LOWER_K: byte := 0x6B
  const LOWER_S: byte := 0x73
  const LOWER_V: byte := 0x76
  const UPPER_D: byte := 0x44
  const SEMICOLON: byte := 0x3B

  /** "vCont;" */
  const V_CONT: seq<byte> := [0x76, 0x43, 0x6F, 0x6E, 0x74, 0x3B]

  /** A packet as the C string functions see it: up to its first NUL. */
  function Text(packet: seq<byte>): (text: seq<byte>) {
    if packet == [] || packet[0] == 0 then [] else [packet[0]] + Text(packet[1..])
  }

  /** strstr(text, ";s") != NULL */
  predicate HasStep(text: seq<byte>) {
    2 <= |text| && ((text[0] == SEMICOLON && text[1] == LOWER_S) || HasStep(text[1..]))
  }

  /** parse_hex_u32 succeeds: a number, used up, that fits an unsigned long and then 32 bits. */
  predicate ParsesHex(text: seq<byte>) {
    var n := Strtoul(text + [0]);
    && 0 < n.end && (text + [0])[n.end] == 0
    && 0 < n.value + TWO_TO_64 && n.value < TWO_TO_64 && n.value % TWO_TO_64 < TWO_TO_32
  }

  /** What a packet does to the session; every other packet is only answered. */
  datatype Effect = Closes | Continues | IsAnswered

  function EffectOf(packet: seq<byte>): Effect {
    var t := Text(packet);
    if t == [UPPER_D] || (t != [] && t[0] == LOWER_K) then Closes
    else if t == [LOWER_C] || (1 < |t| && t[0] == LOWER_C && ParsesHex(t[1..]) && !HasStep(t)) then Continues
    else if V_CONT + [LOWER_C] <= t && !HasStep(t) then Continues
    else IsAnswered
  }

  datatype Onward = Ends | Onward(stream: seq<byte>, waits: seq<nat>)

  /** Where the loop goes on after a dispatched packet.  `waits` tells, for each time the target is set running, how
      many bytes await_stop reads before it stops; a read past the end is a disconnection. */
  function Next(packet: seq<byte>, rest: seq<byte>, waits: seq<nat>): (o: Onward)
    ensures o.Onward? ==> |o.stream| <= |rest| && o.stream == rest[|rest| - |o.stream|..]
  {
    match EffectOf(packet)
    case Closes => Ends
    case IsAnswered => Onward(rest, waits)
    case Continues =>
      if waits == [] then Onward(rest, [])
      else if waits[0] <= |rest| then Onward(rest[waits[0]..], waits[1..])
      else Ends
  }

  /** The packets dispatched: refused ones are skipped, and a result of zero ends the session. */
  function Session(s: seq<byte>, waits: seq<nat>): (packets: seq<seq<byte>>)
    decreases |s|
  {
    var r := Receive(s, PACKET_SIZE + 1);
    if r.len == 0 then []
    else if r.len < 0 then Session(s[r.used..], waits)
    else
      match Next(r.packet, s[r.used..], waits)
      case Ends => [r.packet]
      case Onward(stream, more) => [r.packet] + Session(stream, more)
  }

  /** One turn of the session loop, after the packets dispatched so far. */
  lemma SessionTurn(before: seq<seq<byte>>, s: seq<byte>, waits: seq<nat>)
    ensures
      var r := Receive(s, PACKET_SIZE + 1);
      if r.len == 0 then before + Session(s, waits) == before
      else if r.len < 0 then Session(s, waits) == Session(s[r.used..], waits)
      else
        match Next(r.packet, s[r.used..], waits)
        case Ends => before + Session(s, waits) == before + [r.packet]
        case Onward(stream, more) => before + Session(s, waits) == before + [r.packet] + Session(stream, more)
  {
  }

  /** The session loop of gdb_rsp_run. */
  method RunSession(s: seq<byte>, waits: seq<nat>) returns (packets: seq<seq<byte>>)
    ensures packets == Session(s, waits)
  {
    packets := [];
    var stream, more := s, waits;
    while true
      invariant Session(s, waits) == packets + Session(stream, more)
      decreases |stream|
    {
      SessionTurn(packets, stream, more);
      var r := ReadPacket(stream, PACKET_SIZE + 1);
      if r.len == 0 {
        return;
      }
      stream := stream[r.used..];
      if r.len > 0 {
        packets := packets + [r.packet];
        var onward := Next(r.packet, stream, more);
        if onward.Ends? {
          return;
        }
        stream, more := onward.stream, onward.waits;
      }
    }
  }

  // ---- What a peer sends ----

  /** A packet and the bytes before it on the wire: acknowledgements, interrupts, anything but a $. */
  datatype Item = Item(noise: seq<byte>, packet: seq<byte>)

  predicate Sendable(item: Item) {
    DOLLAR !in item.noise && 0 < |item.packet| <= PACKET_SIZE && HASH !in item.packet
  }

  ghost predicate AllSendable(items: seq<Item>) {
    forall i :: 0 <= i < |items| ==> Sendable(items[i])
  }

  function Wire(items: seq<Item>, tail: seq<byte>): (s: seq<byte>) {
    if items == [] then tail else items[0].noise + Frame(items[0].packet) + Wire(items[1..], tail)
  }

  function Packets(items: seq<Item>): (packets: seq<seq<byte>>)
    ensures |packets| == |items|
  {
    if items == [] then [] else [items[0].packet] + Packets(items[1..])
  }

  /** The items up to and including the first that closes the session. */
  function UpToClose(items: seq<Item>): (kept: seq<Item>)
    ensures |kept| <= |items|
  {
    if items == [] then []
    else if EffectOf(items[0].packet) == Closes then [items[0]]
    else [items[0]] + UpToClose(items[1..])
  }

  /** Whatever await_stop reads comes before the next packet: the peer waits for the stop reply. */
  predicate Undisturbed(items: seq<Item>, waits: seq<nat>)
    decreases |items|
  {
    |items| <= 1 ||
    match EffectOf(items[0].packet)
    case Closes => true
    case IsAnswered => Undisturbed(items[1..], waits)
    case Continues =>
      if waits == [] then Undisturbed(items[1..], [])
      else waits[0] <= |items[1].noise| && Undisturbed(items[1..], waits[1..])
  }

  // ---- Sessions that are not disturbed ----

  /** The first item's noise without its first `n` bytes. */
  function Trimmed(items: seq<Item>, n: nat): (r: seq<Item>)
    requires items != [] && n <= |items[0].noise|
    ensures |r| == |items| && r[1..] == items[1..] && r[0] == Item(items[0].noise[n..], items[0].packet)
  {
    [Item(items[0].noise[n..], items[0].packet)] + items[1..]
  }

  lemma TrimmedWire(items: seq<Item>, tail: seq<byte>, n: nat)
    requires items != [] && n <= |items[0].noise| && AllSendable(items)
    ensures Wire(items, tail)[n..] == Wire(Trimmed(items, n), tail) && AllSendable(Trimmed(items, n))
    ensures Packets(Trimmed(items, n)) == Packets(items)
  {
    var r := Trimmed(items, n);
    assert forall b :: b in items[0].noise[n..] ==> b in items[0].noise;
    forall i | 0 <= i < |r| ensures Sendable(r[i]) {
      assert Sendable(items[i]) && (i == 0 || r[i] == r[1..][i - 1] == items[1..][i - 1]);
    }
  }

  lemma TrimmedIsUndisturbed(items: seq<Item>, waits: seq<nat>, n: nat)
    requires items != [] && n <= |items[0].noise|
    ensures Undisturbed(Trimmed(items, n), waits) == Undisturbed(items, waits)
    ensures Packets(UpToClose(Trimmed(items, n))) == Packets(UpToClose(items))
  {
    var r := Trimmed(items, n);
    assert |items| > 1 ==> r[1] == r[1..][0] == items[1..][0] == items[1];
    assert [r[0]][1..] == [] && [items[0]][1..] == [];
    assert ([r[0]] + UpToClose(r[1..]))[1..] == UpToClose(items[1..]) == ([items[0]] + UpToClose(items[1..]))[1..];
  }

  lemma NothingLeft(s: seq<byte>, waits: seq<nat>)
    requires DOLLAR !in s
    ensures Session(s, waits) == []
  {
    FindNothing(s, DOLLAR, 0);
  }

  /** The first packet on the wire is dispatched, and the rest of the wire remains. */
  lemma FirstIsDispatched(items: seq<Item>, tail: seq<byte>, waits: seq<nat>)
    requires items != [] && AllSendable(items)
    ensures Session(Wire(items, tail), waits) ==
            match Next(items[0].packet, Wire(items[1..], tail), waits)
            case Ends => [items[0].packet]
            case Onward(stream, more) => [items[0].packet] + Session(stream, more)
  {
    var item, rest := items[0], Wire(items[1..], tail);
    assert Sendable(item);
    FrameRoundTripIff(item.noise, item.packet, rest);
    assert (item.noise + Frame(item.packet) + rest)[|item.noise| + |item.packet| + 4..] == rest;
  }

  lemma PacketsUpToClose(items: seq<Item>)
    requires items != []
    ensures Packets(UpToClose(items)) ==
            if EffectOf(items[0].packet) == Closes then [items[0].packet]
            else [items[0].packet] + Packets(UpToClose(items[1..]))
  {
    assert UpToClose(items)[1..] == if EffectOf(items[0].packet) == Closes then [] else UpToClose(items[1..]);
  }

  /** A session whose peer waits for stop replies dispatches exactly the packets that were sent, in order, up to and
      including the first that closes it. */
  lemma {:induction false} SessionRoundTrip(items: seq<Item>, tail: seq<byte>, waits: seq<nat>)
    requires AllSendable(items) && DOLLAR !in tail && Undisturbed(items, waits)
    ensures Session(Wire(items, tail), waits) == Packets(UpToClose(items))
    decreases |items|, 0
  {
    if items == [] {
      NothingLeft(tail, waits);
    } else {
      var rest := items[1..];
      FirstIsDispatched(items, tail, waits);
      PacketsUpToClose(items);
      var wait := if waits == [] then 0 else waits[0];
      if EffectOf(items[0].packet) == IsAnswered {
        SessionRoundTrip(rest, tail, waits);
      } else if EffectOf(items[0].packet) == Continues {
        ContinuedRoundTrip(rest, tail, wait, if waits == [] then [] else waits[1..]);
      }
    }
  }

  /** The same from the point where await_stop has read `n` bytes. */
  lemma {:induction false} ContinuedRoundTrip(items: seq<Item>, tail: seq<byte>, n: nat, waits: seq<nat>)
    requires AllSendable(items) && DOLLAR !in tail && Undisturbed(items, waits)
             && (items != [] ==> n <= |items[0].noise|)
    ensures if n <= |Wire(items, tail)| then Session(Wire(items, tail)[n..], waits) == Packets(UpToClose(items))
            else items == []
    decreases |items|, 1
  {
    if items == [] {
      if n <= |tail| {
        assert forall b :: b in tail[n..] ==> b in tail;
        NothingLeft(tail[n..], waits);
      }
    } else {
      TrimmedWire(items, tail, n);
      TrimmedIsUndisturbed(items, waits, n);
      SessionRoundTrip(Trimmed(items, n), tail, waits);
    }
  }

  // ---- Exactly when every packet is dispatched ----

  /** The bytes that framing these packets takes. */
  function Weight(packets: seq<seq<byte>>): nat {
    if packets == [] then 0 else |packets[0]| + 4 + Weight(packets[1..])
  }

  lemma WeightOfOneMore(packet: seq<byte>, packets: seq<seq<byte>>)
    ensures Weight([packet] + packets) == |packet| + 4 + Weight(packets)
  {
    assert ([packet] + packets)[1..] == packets;
  }

  /** Any $ in a piece of a frame without its first byte is a byte of the packet. */
  lemma DollarInPiece(packet: seq<byte>, k: nat, q: nat)
    requires 0 < k && k + q < |packet| + 4 && Frame(packet)[k + q] == DOLLAR
    ensures k + q <= |packet|
  {
  }

  lemma PieceAt(packet: seq<byte>, k: nat, y: seq<byte>, j: nat)
    requires 0 < k && k + j < |packet| + 4
    ensures (Frame(packet)[k..] + y)[j] == Frame(packet)[k + j]
    ensures k + j <= |packet| ==> Frame(packet)[k + j] == packet[k + j - 1]
    ensures k + j == |packet| + 1 ==> Frame(packet)[k + j] == HASH
  {
  }

  lemma FirstDollar(s: seq<byte>, q: nat)
    requires q == Find(s, DOLLAR, 0)
    ensures forall k :: 0 <= k < q ==> s[k] != DOLLAR
  {
    forall k | 0 <= k < q
      ensures s[k] != DOLLAR
    {
      if s[k] == DOLLAR {
        FindFirst(s, DOLLAR, 0, k);
      }
    }
  }

  /** A piece of a frame without its first byte is used up by at most one, shorter packet. */
  lemma BrokenFrame(packet: seq<byte>, k: nat, y: seq<byte>)
    requires HASH !in packet && |packet| <= PACKET_SIZE && 0 < k < |packet| + 4 && DOLLAR in Frame(packet)[k..]
    ensures
      var x := Frame(packet)[k..];
      var r := Receive(x + y, PACKET_SIZE + 1);
      r.used == |x| && (r.len > 0 ==> |r.packet| + 4 <= |x|)
  {
    var x := Frame(packet)[k..];
    var s := x + y;
    var q := Find(s, DOLLAR, 0);
    var d :| 0 <= d < |x| && x[d] == DOLLAR;
    FindFirst(s, DOLLAR, 0, d);
    PieceAt(packet, k, y, q);
    DollarInPiece(packet, k, q);
    var e := |packet| + 1 - k;
    PieceAt(packet, k, y, e);
    forall j | q + 1 <= j < e
      ensures s[j] != HASH
    {
      PieceAt(packet, k, y, j);
    }
    FirstDollar(s, q);
    ReceiveIs(s, PACKET_SIZE + 1, q, e);
  }

  /** One more sent packet, whatever the session makes of it. */
  lemma WireOf(items: seq<Item>, tail: seq<byte>, c: nat)
    requires items != [] && c <= |Wire(items, tail)|
    ensures
      var n, f, y := |items[0].noise|, Frame(items[0].packet), Wire(items[1..], tail);
      && (c >= n + |f| ==> Wire(items, tail)[c..] == y[c - n - |f|..])
      && (n <= c < n + |f| ==> Wire(items, tail)[c..] == f[c - n..] + y)
  {
  }

  lemma CutTail(tail: seq<byte>, c: nat, waits: seq<nat>)
    requires DOLLAR !in tail && c <= |tail|
    ensures Session(tail[c..], waits) == []
  {
    assert forall b :: b in tail[c..] ==> b in tail;
    NothingLeft(tail[c..], waits);
  }

  lemma WeightOfItems(items: seq<Item>)
    requires items != []
    ensures Weight(Packets(items)) == |items[0].packet| + 4 + Weight(Packets(items[1..]))
  {
    WeightOfOneMore(items[0].packet, Packets(items[1..]));
  }

  lemma {:induction false} CutInNoise(items: seq<Item>, tail: seq<byte>, c: nat, waits: seq<nat>)
    requires items != [] && AllSendable(items) && DOLLAR !in tail && c <= |items[0].noise|
    ensures c <= |Wire(items, tail)|
    ensures Weight(Session(Wire(items, tail)[c..], waits)) <= |items[0].packet| + 4 + Weight(Packets(items[1..]))
    decreases |items| - 1, 4
  {
    TrimmedWire(items, tail, c);
    WholeFirst(Trimmed(items, c), tail, waits);
  }

  lemma {:induction false} CutPastNoise(items: seq<Item>, tail: seq<byte>, c: nat, waits: seq<nat>)
    requires items != [] && AllSendable(items) && DOLLAR !in tail && |items[0].noise| < c <= |Wire(items, tail)|
    ensures Weight(Session(Wire(items, tail)[c..], waits)) < |items[0].packet| + 4 + Weight(Packets(items[1..]))
    decreases |items| - 1, 4
  {
    var n, size := |items[0].noise|, |items[0].packet| + 4;
    WireOf(items, tail, c);
    if c >= n + size {
      CutWire(items[1..], tail, c - n - size, waits);
    } else {
      BrokenFirst(items, tail, c - n, waits);
    }
  }

  /** Cut anywhere, a wire yields no more than its packets take; cut inside or after a frame, strictly less. */
  lemma {:induction false} CutWire(items: seq<Item>, tail: seq<byte>, c: nat, waits: seq<nat>)
    requires AllSendable(items) && DOLLAR !in tail && c <= |Wire(items, tail)|
    ensures Weight(Session(Wire(items, tail)[c..], waits)) <= Weight(Packets(items))
    ensures items != [] && c > |items[0].noise| ==>
            Weight(Session(Wire(items, tail)[c..], waits)) < Weight(Packets(items))
    decreases |items|, if c == 0 then 0 else 1, 1
  {
    if items == [] {
      CutTail(tail, c, waits);
    } else {
      WeightOfItems(items);
      if c <= |items[0].noise| {
        CutInNoise(items, tail, c, waits);
      } else {
        CutPastNoise(items, tail, c, waits);
      }
    }
  }

  /** The session after a dispatched packet yields no more than the rest of the wire. */
  lemma {:induction false} OnwardIsLess(packet: seq<byte>, items: seq<Item>, tail: seq<byte>, waits: seq<nat>)
    requires AllSendable(items) && DOLLAR !in tail
    ensures
      match Next(packet, Wire(items, tail), waits)
      case Ends => true
      case Onward(stream, more) => Weight(Session(stream, more)) <= Weight(Packets(items))
    decreases |items|, 2
  {
    var y := Wire(items, tail);
    match Next(packet, y, waits)
    case Ends =>
    case Onward(stream, more) =>
      CutWire(items, tail, |y| - |stream|, more);
  }

  lemma {:induction false} WholeFirst(items: seq<Item>, tail: seq<byte>, waits: seq<nat>)
    requires items != [] && AllSendable(items) && DOLLAR !in tail
    ensures Weight(Session(Wire(items, tail), waits)) <= |items[0].packet| + 4 + Weight(Packets(items[1..]))
    decreases |items| - 1, 3
  {
    var packet, rest := items[0].packet, items[1..];
    FirstIsDispatched(items, tail, waits);
    OnwardIsLess(packet, rest, tail, waits);
    match Next(packet, Wire(rest, tail), waits)
    case Ends => WeightOfOneMore(packet, []);
    case Onward(stream, more) => WeightOfOneMore(packet, Session(stream, more));
  }

  lemma {:induction false} BrokenFirst(items: seq<Item>, tail: seq<byte>, k: nat, waits: seq<nat>)
    requires items != [] && AllSendable(items) && DOLLAR !in tail && 0 < k < |items[0].packet| + 4
    ensures Weight(Session(Frame(items[0].packet)[k..] + Wire(items[1..], tail), waits)) <
            |items[0].packet| + 4 + Weight(Packets(items[1..]))
    decreases |items| - 1, 3
  {
    var x, rest := Frame(items[0].packet)[k..], items[1..];
    var y := Wire(rest, tail);
    assert Sendable(items[0]);
    if DOLLAR in x {
      BrokenFrame(items[0].packet, k, y);
      var r := Receive(x + y, PACKET_SIZE + 1);
      assert (x + y)[|x|..] == y == y[0..];
      OnwardIsLess(r.packet, rest, tail, waits);
      CutWire(rest, tail, 0, waits);
      if r.len > 0 {
        match Next(r.packet, y, waits)
        case Ends => WeightOfOneMore(r.packet, []);
        case Onward(stream, more) => WeightOfOneMore(r.packet, Session(stream, more));
      }
    } else if rest == [] {
      NothingLeft(x + y, waits);
    } else {
      NoisierFirst(x, rest, tail, waits);
    }
  }

  /** Bytes without a $ before the first item are more noise. */
  lemma {:induction false} NoisierFirst(x: seq<byte>, items: seq<Item>, tail: seq<byte>, waits: seq<nat>)
    requires items != [] && AllSendable(items) && DOLLAR !in tail && DOLLAR !in x
    ensures Weight(Session(x + Wire(items, tail), waits)) <= Weight(Packets(items))
    decreases |items|, 1
  {
    var first := Item(x + items[0].noise, items[0].packet);
    var noisier := [first] + items[1..];
    assert noisier[1..] == items[1..] && Sendable(items[0]) && Sendable(first);
    assert AllSendable(noisier);
    assert Wire(noisier, tail) == x + Wire(items, tail);
    assert Wire(noisier, tail)[0..] == Wire(noisier, tail);
    CutWire(noisier, tail, 0, waits);
  }

  /** No packet but the last closes the session. */
  predicate ClosesLast(items: seq<Item>) {
    |UpToClose(items)| == |items|
  }

  lemma {:induction false} UpToCloseIsAll(items: seq<Item>)
    requires ClosesLast(items)
    ensures UpToClose(items) == items
  {
    if items != [] && EffectOf(items[0].packet) != Closes {
      UpToCloseIsAll(items[1..]);
    }
  }

  /** A peer that is disturbed loses a packet: await_stop has read into one. */
  lemma {:induction false} DisturbedLosesPacket(items: seq<Item>, tail: seq<byte>, waits: seq<nat>)
    requires AllSendable(items) && DOLLAR !in tail && !Undisturbed(items, waits)
    ensures Session(Wire(items, tail), waits) != Packets(items)
    decreases |items|
  {
    var rest, packet := items[1..], items[0].packet;
    var y := Wire(rest, tail);
    FirstIsDispatched(items, tail, waits);
    match Next(packet, y, waits)
    case Ends =>
    case Onward(stream, more) =>
      assert ([packet] + Session(stream, more))[1..] == Session(stream, more);
      assert Packets(items)[1..] == Packets(rest);
      if EffectOf(packet) == IsAnswered || waits == [] {
        DisturbedLosesPacket(rest, tail, more);
      } else if waits[0] <= |rest[0].noise| {
        TrimmedWire(rest, tail, waits[0]);
        TrimmedIsUndisturbed(rest, more, waits[0]);
        DisturbedLosesPacket(Trimmed(rest, waits[0]), tail, more);
      } else {
        CutWire(rest, tail, waits[0], more);
      }
  }

  /** Every packet sent is dispatched, in order, exactly when the peer sends nothing but noise while the target runs
      and no packet before the last closes the session. */
  lemma AllDispatchedIff(items: seq<Item>, tail: seq<byte>, waits: seq<nat>)
    requires AllSendable(items) && DOLLAR !in tail
    ensures Session(Wire(items, tail), waits) == Packets(items) <==> Undisturbed(items, waits) && ClosesLast(items)
  {
    if Undisturbed(items, waits) {
      SessionRoundTrip(items, tail, waits);
      if ClosesLast(items) {
        UpToCloseIsAll(items);
      }
    } else {
      DisturbedLosesPacket(items, tail, waits);
    }
  }

  lemma RefusedIsSkipped(s: seq<byte>, n: nat, rest: seq<byte>, waits: seq<nat>)
    requires Receive(s, PACKET_SIZE + 1) == Received(-1, [], n, [MINUS]) && s[n..] == rest
    ensures Session(s, waits) == Session(rest, waits)
  {
  }

  /** A frame damaged in one byte of its packet is as if it had not been sent: what follows, such as the same packet
      sent again, is dispatched as it would have been without it. */
  lemma DamagedFrameIsSkipped(s: seq<byte>, start: nat, packet: seq<byte>, k: nat, x: byte, waits: seq<nat>)
    requires FrameAt(s, start, packet) && HASH !in packet && |packet| <= PACKET_SIZE
    requires k < |packet| && x != packet[k] && x != HASH
    ensures Session(s[start + 1 + k := x], waits) == Session(s[start + |packet| + 4..], waits)
  {
    ChangedByteIsRefused(s, start, packet, k, x);
    RefusedIsSkipped(s[start + 1 + k := x], start + |packet| + 4, s[start + |packet| + 4..], waits);
  }

  /** An empty packet is well formed and acknowledged, but its length ends the session. */
  lemma EmptyPacketEndsSession(noise: seq<byte>, rest: seq<byte>, waits: seq<nat>)
    requires DOLLAR !in noise
    ensures Receive(noise + Frame([]) + rest, PACKET_SIZE + 1).answer == [PLUS]
    ensures Session(noise + Frame([]) + rest, waits) == []
  {
    FrameRoundTripIff(noise, [], rest);
  }

  lemma TextStarts(packet: seq<byte>)
    requires packet != [] && packet[0] != 0
    ensures Text(packet) == [packet[0]] + Text(packet[1..])
    ensures Text(packet) == [packet[0]] <==> |packet| == 1 || packet[1] == 0
  {
    assert Text(packet[1..]) == [] <==> |packet| == 1 || packet[1] == 0;
    assert Text(packet)[1..] == Text(packet[1..]);
  }

  /** Nothing is dispatched after a packet exactly if its bytes begin with k, or are a D that ends there or is
      followed by a NUL. */
  lemma DetachAndKillClose(packet: seq<byte>)
    ensures EffectOf(packet) == Closes <==>
            packet != [] && (packet[0] == LOWER_K || (packet[0] == UPPER_D && (|packet| == 1 || packet[1] == 0)))
  {
    if packet != [] && packet[0] != 0 {
      TextStarts(packet);
    }
  }

  lemma {:induction false} TextIs(packet: seq<byte>, n: nat)
    requires n <= |packet| && (forall i :: 0 <= i < n ==> packet[i] != 0) && (n < |packet| ==> packet[n] == 0)
    ensures Text(packet) == packet[..n]
  {
    if n > 0 {
      TextIs(packet[1..], n - 1);
      assert [packet[0]] + packet[1..][..n - 1] == packet[..n];
    }
  }

  lemma {:induction false} HasStepIff(text: seq<byte>)
    ensures HasStep(text) <==> exists i :: 1 <= i < |text| && text[i - 1] == SEMICOLON && text[i] == LOWER_S
  {
    if 2 <= |text| {
      HasStepIff(text[1..]);
      assert forall i :: 1 <= i < |text| ==> text[i] == text[1..][i - 1];
    }
  }

  /** The number that hexadecimal digits spell, the last one counting ones. */
  function Spelled(digits: seq<byte>): int {
    if digits == [] then 0 else 16 * Spelled(digits[..|digits| - 1]) + HexValue(digits[|digits| - 1])
  }

  /** `text` is `b` blanks, a sign or none, 0x or nothing, and at least one digit. */
  predicate Forms(text: seq<byte>, b: nat, sign: nat, prefix: nat) {
    && b + sign + prefix < |text| && sign <= 1 && (prefix == 0 || prefix == 2)
    && (forall i :: 0 <= i < b ==> IsSpace(text[i]))
    && (sign == 1 ==> text[b] == '+' as int || text[b] == '-' as int)
    && (prefix == 2 ==> text[b + sign] == '0' as int && text[b + sign + 1] in ['x' as int, 'X' as int])
    && forall i :: b + sign + prefix <= i < |text| ==> HexValue(text[i]) >= 0
  }

  lemma {:induction false} SkipsBlanks(text: seq<byte>, i: nat, b: nat)
    requires Terminated(text) && i <= b < |text| && !IsSpace(text[b])
    requires forall k :: i <= k < b ==> IsSpace(text[k])
    ensures SkipSpace(text, i) == b
    decreases b - i
  {
    if i < b {
      SkipsBlanks(text, i + 1, b);
    }
  }

  lemma {:induction false} AllDigits(text: seq<byte>, first: nat, i: nat)
    requires first <= i <= |text| && forall k :: first <= k < |text| ==> HexValue(text[k]) >= 0
    requires 0 <= Spelled(text[first..i])
    ensures 0 <= Spelled(text[first..])
    ensures Digits(text + [0], i, Spelled(text[first..i])) == Number(Spelled(text[first..]), |text|)
    decreases |text| - i
  {
    if i < |text| {
      assert text[first..i + 1][..i - first] == text[first..i];
      AllDigits(text, first, i + 1);
    } else {
      assert text[first..i] == text[first..];
    }
  }

  lemma FormsValue(text: seq<byte>, b: nat, sign: nat, prefix: nat)
    requires Forms(text, b, sign, prefix)
    ensures
      var n := Spelled(text[b + sign + prefix..]);
      && 0 <= n
      && Strtoul(text + [0]) == Number(if sign == 1 && text[b] == MINUS then -n else n, |text|)
  {
    var first, z := b + sign + prefix, text + [0];
    assert SkipSpace(z, 0) == b by {
      SkipsBlanks(z, 0, b);
    }
    assert Digits(z, first, 0) == Number(Spelled(text[first..]), |text|) && 0 <= Spelled(text[first..]) by {
      assert text[first..first] == [];
      AllDigits(text, first, first);
    }
  }

  /** Which numbers fit: up to 32 bits, or up to 64 bits after a minus sign if what is left wraps to 32. */
  lemma FormsParse(text: seq<byte>, b: nat, sign: nat, prefix: nat)
    requires Forms(text, b, sign, prefix)
    ensures
      var n := Spelled(text[b + sign + prefix..]);
      ParsesHex(text) <==>
      if sign == 1 && text[b] == '-' as int then n == 0 || TWO_TO_64 - TWO_TO_32 < n < TWO_TO_64 else n < TWO_TO_32
  {
    FormsValue(text, b, sign, prefix);
    assert (text + [0])[|text|] == 0;
  }

  lemma {:induction false} BlanksBefore(text: seq<byte>, i: nat)
    requires Terminated(text) && i < |text|
    ensures forall k :: i <= k < SkipSpace(text, i) ==> IsSpace(text[k])
    decreases |text| - i
  {
    if IsSpace(text[i]) {
      BlanksBefore(text, i + 1);
    }
  }

  lemma {:induction false} DigitsBefore(text: seq<byte>, i: nat, value: nat)
    requires Terminated(text) && i < |text|
    ensures forall k :: i <= k < Digits(text, i, value).end ==> HexValue(text[k]) >= 0
    decreases |text| - i
  {
    if HexValue(text[i]) >= 0 {
      DigitsBefore(text, i + 1, 16 * value + HexValue(text[i]));
    }
  }

  /** Nothing else is taken for an address. */
  lemma ParsesOnlyForms(text: seq<byte>) returns (b: nat, sign: nat, prefix: nat)
    requires 0 !in text && ParsesHex(text)
    ensures Forms(text, b, sign, prefix)
  {
    var z := text + [0];
    b := SkipSpace(z, 0);
    BlanksBefore(z, 0);
    sign := if z[b] == PLUS || z[b] == MINUS then 1 else 0;
    var j := b + sign;
    prefix := if z[j] == 0x30 && (z[j + 1] == LOWER_X || z[j + 1] == 0x58) && HexValue(z[j + 2]) >= 0 then 2 else 0;
    DigitsBefore(z, j + prefix, 0);
    assert Strtoul(z).end == Digits(z, j + prefix, 0).end == |text|;
    forall i | 0 <= i < b
      ensures IsSpace(text[i])
    {
      assert z[i] == text[i];
    }
    forall i | j + prefix <= i < |text|
      ensures HexValue(text[i]) >= 0
    {
      assert z[i] == text[i];
    }
  }

  /** The packets that set the target running: a c alone, or with an address, or a vCont;c without a ;s, each taken up
      to the first NUL. */
  lemma ContinuesIff(packet: seq<byte>, n: nat)
    requires n <= |packet| && (forall i :: 0 <= i < n ==> packet[i] != 0) && (n < |packet| ==> packet[n] == 0)
    ensures
      var t := packet[..n];
      EffectOf(packet) == Continues <==>
      && t != []
      && (t == ['c' as int] || (t[0] == 'c' as int && ParsesHex(t[1..])) || V_CONT + ['c' as int] <= t)
      && !exists i :: 1 <= i < |t| && t[i - 1] == ';' as int && t[i] == 's' as int
  {
    assert Text(packet) == packet[..n] by {
      TextIs(packet, n);
    }
    assert n == 1 ==> packet[..n] == [packet[0]] && !ParsesHex([]);
    HasStepIff(packet[..n]);
  }

  /** A bare c sets the target running, a bare s is answered after one step. */
  lemma ContinueAndStep()
    ensures EffectOf([LOWER_C]) == Continues && EffectOf([LOWER_S]) == IsAnswered
  {
    TextStarts([LOWER_C]);
    TextStarts([LOWER_S]);
  }
}
