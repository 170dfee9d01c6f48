/**
  Packets of the GDB remote serial protocol (appendix E of "Debugging with GDB") as
  src/debugger/rsp/gdb_rsp.c reads and sends them.  A connection is the sequence of bytes the peer
  sends before it closes.
 */
module GdbPacket {
  import opened Numbers

  const DOLLAR: byte := 0x24
  const HASH: byte := 0x23
  const PLUS: byte := 0x2B
  const MINUS: byte := 0x2D
  const LOWER_X: byte := 0x78

  /** RSP_PACKET_SIZE; the receive buffer has one byte more. */
  const PACKET_SIZE: nat := 8192

  // ---- Hexadecimal digits ----

  /** hex_value */
  function HexValue(ch: byte): (v: int)
    ensures -1 <= v < 16
  {
    if 0x30 <= ch <= 0x39 then ch - 0x30
    else if 0x61 <= ch <= 0x66 then ch - 0x61 + 10
    else if 0x41 <= ch <= 0x46 then ch - 0x41 + 10
    else -1
  }

  function Digit(v: nat): (ch: byte)
    requires v < 16
    ensures HexValue(ch) == v && ch != HASH && ch != DOLLAR && ch != LOWER_X && ch != 0
  {
    if v < 10 then 0x30 + v else 0x61 + v - 10
  }

  const LOWER_DIGITS := "0123456789abcdef"
  const UPPER_DIGITS := "0123456789ABCDEF"

  /** The sixteen digits, with letters in either case, and nothing else. */
  lemma HexValueIff(ch: byte, v: nat)
    requires v < 16
    ensures HexValue(ch) == v <==> ch == LOWER_DIGITS[v] as int || ch == UPPER_DIGITS[v] as int
    ensures Digit(v) == LOWER_DIGITS[v] as int
  {
  }

  // ---- Framing ----

  /** The sum of the bytes modulo 256. */
  function Checksum(s: seq<byte>): (c: byte) {
    if s == [] then 0 else (Checksum(s[..|s| - 1]) + s[|s| - 1]) % 256
  }

  lemma ChecksumOfOneMore(s: seq<byte>, x: byte)
    ensures Checksum(s + [x]) == (Checksum(s) + x) % 256
  {
    assert (s + [x])[..|s|] == s;
  }

  /** The sum of the bytes. */
  function Sum(s: seq<byte>): nat {
    if s == [] then 0 else s[0] + Sum(s[1..])
  }

  lemma {:induction false} SumOfOneMore(s: seq<byte>, x: byte)
    ensures Sum(s + [x]) == Sum(s) + x
  {
    if s != [] {
      assert (s + [x])[1..] == s[1..] + [x];
      SumOfOneMore(s[1..], x);
    }
  }

  lemma WrapTwice(a: nat, x: nat)
    ensures (a % 256 + x) % 256 == (a + x) % 256
  {
  }

  lemma {:induction false} ChecksumIsSum(s: seq<byte>)
    ensures Checksum(s) == Sum(s) % 256
  {
    if s != [] {
      var n := |s| - 1;
      ChecksumIsSum(s[..n]);
      assert Sum(s) == Sum(s[..n]) + s[n] by {
        SumOfOneMore(s[..n], s[n]);
        assert s[..n] + [s[n]] == s;
      }
      WrapTwice(Sum(s[..n]), s[n]);
    }
  }

  lemma {:induction false} SumOfChanged(s: seq<byte>, k: nat, x: byte)
    requires k < |s|
    ensures Sum(s[k := x]) == Sum(s) - s[k] + x
  {
    if k == 0 {
      assert s[0 := x][1..] == s[1..];
    } else {
      assert s[k := x][1..] == s[1..][k - 1 := x];
      SumOfChanged(s[1..], k - 1, x);
    }
  }

  function Frame(packet: seq<byte>): (frame: seq<byte>)
    ensures |frame| == |packet| + 4
  {
    var c := Checksum(packet);
    [DOLLAR] + packet + [HASH, Digit(c / 16), Digit(c % 16)]
  }

  /** send_packet of a C string: nothing is sent when it is too long. */
  method SendPacket(packet: seq<byte>) returns (frame: seq<byte>)
    ensures frame == if |packet| > PACKET_SIZE then [] else Frame(packet)
  {
    if |packet| > PACKET_SIZE {
      return [];
    }
    var checksum: int, i := 0, 0;
    while i < |packet|
      invariant i <= |packet| && 0 <= checksum < 256 && checksum == Checksum(packet[..i])
    {
      ChecksumOfOneMore(packet[..i], packet[i]);
      assert packet[..i + 1] == packet[..i] + [packet[i]];
      checksum := (checksum + packet[i]) % 256;
      i := i + 1;
    }
    assert packet[..i] == packet;
    frame := [DOLLAR] + packet + [HASH, Digit(checksum / 16), Digit(checksum % 16)];
  }

  datatype Option<T> = None | Some(value: T)

  predicate IsSpace(ch: byte) {
    0x09 <= ch <= 0x0D || ch == 0x20
  }

  // ---- strtoul in base 16, on NUL-terminated text ----

  datatype Number = Number(value: int, end: nat)

  predicate Terminated(text: seq<byte>) {
    text != [] && text[|text| - 1] == 0
  }

  function SkipSpace(text: seq<byte>, i: nat): (k: nat)
    requires Terminated(text) && i < |text|
    ensures i <= k < |text|
    decreases |text| - i
  {
    if IsSpace(text[i]) then SkipSpace(text, i + 1) else i
  }

  function Digits(text: seq<byte>, i: nat, value: nat): (n: Number)
    requires Terminated(text) && i < |text|
    ensures i <= n.end < |text|
    decreases |text| - i
  {
    if HexValue(text[i]) < 0 then Number(value, i) else Digits(text, i + 1, 16 * value + HexValue(text[i]))
  }

  /** The value, negated after a minus sign, and where parsing stopped: the start when there is no number. */
  function Strtoul(text: seq<byte>): (n: Number)
    requires Terminated(text)
    ensures n.end < |text|
  {
    var i := SkipSpace(text, 0);
    var signed := text[i] == PLUS || text[i] == MINUS;
    var j := if signed then i + 1 else i;
    var prefixed := text[j] == 0x30 && (text[j + 1] == LOWER_X || text[j + 1] == 0x58) && HexValue(text[j + 2]) >= 0;
    var first := if prefixed then j + 2 else j;
    if HexValue(text[first]) < 0 then Number(0, 0)
    else
      var n := Digits(text, first, 0);
      if text[i] == MINUS then Number(-n.value, n.end) else n
  }

  /** The checksum read_packet expects: the two characters as an unsigned int, if they were used up. */
  function ChecksumText(c0: byte, c1: byte): Option<int> {
    var text := [c0, c1, 0];
    var n := Strtoul(text);
    if text[n.end] == 0 then Some(n.value % TWO_TO_32) else None
  }

  /** Which texts that accepts: two digits, but also a blank or a sign before one digit, one digit before a
      NUL, and anything after a NUL. */
  lemma ChecksumTextIs(c0: byte, c1: byte)
    ensures ChecksumText(c0, c1) ==
            if c0 == 0 then Some(0)
            else if HexValue(c0) >= 0 && c1 == 0 then Some(HexValue(c0))
            else if HexValue(c0) >= 0 && HexValue(c1) >= 0 then Some(16 * HexValue(c0) + HexValue(c1))
            else if c0 in [0x09, 0x0A, 0x0B, 0x0C, 0x0D, 0x20, PLUS] && HexValue(c1) >= 0 then Some(HexValue(c1))
            else if c0 == MINUS && HexValue(c1) > 0 then Some(TWO_TO_32 - HexValue(c1))
            else if c0 == MINUS && HexValue(c1) == 0 then Some(0)
            else None
  {
    var text := [c0, c1, 0];
    var one := HexValue(c1);
    if HexValue(c0) >= 0 {
      assert SkipSpace(text, 0) == 0;
      assert Digits(text, 1, HexValue(c0)) ==
             if one < 0 then Number(HexValue(c0), 1) else Digits(text, 2, 16 * HexValue(c0) + one);
      assert Strtoul(text) == Digits(text, 0, 0);
    } else if (IsSpace(c0) || c0 == PLUS || c0 == MINUS) && one >= 0 {
      assert SkipSpace(text, 0) == if IsSpace(c0) then SkipSpace(text, 1) else 0;
      assert Digits(text, 1, 0) == Digits(text, 2, one) == Number(one, 2);
      assert Strtoul(text) == Number(if c0 == MINUS then -one else one, 2);
    } else {
      assert SkipSpace(text, 2) == 2;
      assert Strtoul(text) == Number(0, 0);
    }
  }

  /** The first place from `i` on that holds `b`, or the length. */
  function Find(s: seq<byte>, b: byte, i: nat): (k: nat)
    requires i <= |s|
    ensures i <= k <= |s| && (k < |s| ==> s[k] == b)
    decreases |s| - i
  {
    if i == |s| || s[i] == b then i else Find(s, b, i + 1)
  }

  lemma {:induction false} FindIs(s: seq<byte>, b: byte, i: nat, k: nat)
    requires i <= k < |s| && s[k] == b && forall j :: i <= j < k ==> s[j] != b
    ensures Find(s, b, i) == k
    decreases k - i
  {
    if i < k {
      FindIs(s, b, i + 1, k);
    }
  }

  lemma FindNothing(s: seq<byte>, b: byte, i: nat)
    requires i <= |s| && forall j :: i <= j < |s| ==> s[j] != b
    ensures Find(s, b, i) == |s|
  {
  }

  /** What read_packet returns, the packet, the bytes it used, and its answer to the peer. */
  datatype Received = Received(len: int, packet: seq<byte>, used: nat, answer: seq<byte>)

  /** read_packet once the body has ended at `end`: the # and two checksum characters follow, or not. */
  function Finish(s: seq<byte>, packet: seq<byte>, checksum: int, end: nat): (r: Received)
    requires end <= |s|
  {
    if end + 2 >= |s| then Received(0, [], |s|, [])
    else if ChecksumText(s[end + 1], s[end + 2]) == Some(checksum) then Received(|packet|, packet, end + 3, [PLUS])
    else Received(-1, [], end + 3, [MINUS])
  }

  /** read_packet: the bytes between the first $ and the next #, if they fit and the checksum is right. */
  function Receive(s: seq<byte>, capacity: nat): (r: Received)
    requires 0 < capacity
    ensures r.used <= |s| && (r.len != 0 ==> r.used > 0)
  {
    var start := Find(s, DOLLAR, 0);
    if start == |s| then Received(0, [], |s|, [])
    else
      var end := Find(s, HASH, start + 1);
      if end - (start + 1) >= capacity then Received(0, [], start + 1 + capacity, [])
      else Finish(s, s[start + 1..end], Checksum(s[start + 1..end]), end)
  }

  /** The second loop of read_packet, up to the # or the end of the stream. */
  method ReadBody(s: seq<byte>, start: nat, capacity: nat)
    returns (fits: bool, end: nat, packet: seq<byte>, checksum: int)
    requires start <= |s| && 0 < capacity
    ensures fits <==> Find(s, HASH, start) - start < capacity
    ensures fits ==> end == Find(s, HASH, start) && packet == s[start..end] && checksum == Checksum(packet)
    ensures !fits ==> end == start + capacity
  {
    end, packet, checksum := start, [], 0;
    while end < |s| && s[end] != HASH
      invariant start <= end <= |s| && Find(s, HASH, start) == Find(s, HASH, end) && end - start < capacity
      invariant packet == s[start..end] && checksum == Checksum(packet)
    {
      checksum := (checksum + s[end]) % 256;
      if |packet| + 1 >= capacity {
        return false, end + 1, packet, checksum;
      }
      ChecksumOfOneMore(packet, s[end]);
      assert s[start..end + 1] == packet + [s[end]];
      packet := packet + [s[end]];
      end := end + 1;
    }
    fits := true;
  }

  method ReadPacket(s: seq<byte>, capacity: nat) returns (r: Received)
    requires 0 < capacity
    ensures r == Receive(s, capacity)
  {
    var i := 0;
    while i < |s| && s[i] != DOLLAR
      invariant i <= |s| && Find(s, DOLLAR, 0) == Find(s, DOLLAR, i)
    {
      i := i + 1;
    }
    if i == |s| {
      return Received(0, [], |s|, []);
    }
    var fits, end, packet, checksum := ReadBody(s, i + 1, capacity);
    if !fits {
      return Received(0, [], end, []);
    }
    r := CheckPacket(s, packet, checksum, end);
  }

  /** The end of read_packet: the # and the two checksum characters. */
  method CheckPacket(s: seq<byte>, packet: seq<byte>, checksum: int, end: nat) returns (r: Received)
    requires end <= |s|
    ensures r == Finish(s, packet, checksum, end)
  {
    if end + 2 >= |s| {
      return Received(0, [], |s|, []);
    }
    if ChecksumText(s[end + 1], s[end + 2]) != Some(checksum) {
      return Received(-1, [], end + 3, [MINUS]);
    }
    return Received(|packet|, packet, end + 3, [PLUS]);
  }

  lemma ChecksumTextOfDigits(c: byte)
    ensures ChecksumText(Digit(c / 16), Digit(c % 16)) == Some(c)
  {
    ChecksumTextIs(Digit(c / 16), Digit(c % 16));
  }

  lemma {:induction false} FindFirst(s: seq<byte>, b: byte, i: nat, k: nat)
    requires i <= k < |s| && s[k] == b
    ensures Find(s, b, i) <= k
    decreases k - i
  {
    if i < k && s[i] != b {
      FindFirst(s, b, i + 1, k);
    }
  }

  /** What read_packet does with the bytes between the first $ and the next #: they are accepted and acknowledged
      exactly when they fit the buffer and the two characters after the # give their sum modulo 256; a wrong
      checksum is refused; too many bytes, or a stream that ends too early, end the session without an answer. */
  lemma ReceiveIs(s: seq<byte>, capacity: nat, start: nat, end: nat)
    requires 0 < capacity && start < end <= |s| && s[start] == DOLLAR && forall k :: 0 <= k < start ==> s[k] != DOLLAR
    requires (forall k :: start < k < end ==> s[k] != HASH) && (end < |s| ==> s[end] == HASH)
    ensures
      var r, body := Receive(s, capacity), s[start + 1..end];
      if |body| >= capacity || end + 2 >= |s| then r.len == 0 && r.answer == []
      else if ChecksumText(s[end + 1], s[end + 2]) == Some(Sum(body) % 256)
      then r == Received(|body|, body, end + 3, [PLUS])
      else r == Received(-1, [], end + 3, [MINUS])
  {
    FindIs(s, DOLLAR, 0, start);
    if end < |s| {
      FindIs(s, HASH, start + 1, end);
    } else {
      FindNothing(s, HASH, start + 1);
    }
    ChecksumIsSum(s[start + 1..end]);
  }

  /** `s` holds the frame of `packet` at `start`, and no $ before it. */
  ghost predicate FrameAt(s: seq<byte>, start: nat, packet: seq<byte>) {
    && start + |packet| + 4 <= |s| && s[start] == DOLLAR && s[start + 1 + |packet|] == HASH
    && s[start + 1..start + 1 + |packet|] == packet
    && s[start + 2 + |packet|] == Digit(Checksum(packet) / 16)
    && s[start + 3 + |packet|] == Digit(Checksum(packet) % 16)
    && forall k :: 0 <= k < start ==> s[k] != DOLLAR
  }

  lemma FrameIsAt(noise: seq<byte>, packet: seq<byte>, rest: seq<byte>)
    requires DOLLAR !in noise
    ensures FrameAt(noise + Frame(packet) + rest, |noise|, packet)
  {
  }

  lemma FrameIsRead(s: seq<byte>, start: nat, packet: seq<byte>)
    requires FrameAt(s, start, packet) && HASH !in packet && |packet| <= PACKET_SIZE
    ensures Receive(s, PACKET_SIZE + 1) == Received(|packet|, packet, start + |packet| + 4, [PLUS])
  {
    var end := start + 1 + |packet|;
    forall k | start < k < end
      ensures s[k] != HASH
    {
      assert s[k] == packet[k - start - 1];
    }
    assert ChecksumText(s[end + 1], s[end + 2]) == Some(Sum(packet) % 256) by {
      ChecksumIsSum(packet);
      ChecksumTextOfDigits(Checksum(packet));
    }
    ReceiveIs(s, PACKET_SIZE + 1, start, end);
  }

  lemma HashCutsPacket(s: seq<byte>, start: nat, packet: seq<byte>)
    requires FrameAt(s, start, packet) && HASH in packet
    ensures |Receive(s, PACKET_SIZE + 1).packet| < |packet|
  {
    FindIs(s, DOLLAR, 0, start);
    var k :| 0 <= k < |packet| && packet[k] == HASH;
    assert s[start + 1 + k] == s[start + 1..start + 1 + |packet|][k];
    FindFirst(s, HASH, start + 1, start + 1 + k);
  }

  /** A frame one byte of whose packet has changed: where things are, and what the checksum would have to be. */
  lemma ChangedFrame(s: seq<byte>, start: nat, packet: seq<byte>, k: nat, x: byte)
    requires FrameAt(s, start, packet) && HASH !in packet && k < |packet| && x != HASH
    ensures
      var changed, end := s[start + 1 + k := x], start + 1 + |packet|;
      && changed[start] == DOLLAR && (forall j :: 0 <= j < start ==> changed[j] != DOLLAR)
      && changed[end] == HASH && (forall j :: start < j < end ==> changed[j] != HASH)
      && changed[start + 1..end] == packet[k := x]
      && ChecksumText(changed[end + 1], changed[end + 2]) == Some(Checksum(packet))
  {
    var changed, end := s[start + 1 + k := x], start + 1 + |packet|;
    assert changed[start + 1..end] == s[start + 1..end][k := x];
    forall j | start < j < end ensures changed[j] != HASH {
      assert changed[j] == packet[k := x][j - start - 1];
    }
    ChecksumTextOfDigits(Checksum(packet));
  }

  lemma OtherSum(a: nat, b: nat, p: byte, x: byte)
    requires b == a - p + x && p != x
    ensures a % 256 != b % 256
  {
  }

  /** A frame with one byte of its packet changed on the way is refused. */
  lemma ChangedByteIsRefused(s: seq<byte>, start: nat, packet: seq<byte>, k: nat, x: byte)
    requires FrameAt(s, start, packet) && HASH !in packet && |packet| <= PACKET_SIZE
    requires k < |packet| && x != packet[k] && x != HASH
    ensures Receive(s[start + 1 + k := x], PACKET_SIZE + 1) == Received(-1, [], start + |packet| + 4, [MINUS])
  {
    ChangedFrame(s, start, packet, k, x);
    ReceiveIs(s[start + 1 + k := x], PACKET_SIZE + 1, start, start + 1 + |packet|);
    assert Checksum(packet) != Sum(packet[k := x]) % 256 by {
      ChecksumIsSum(packet);
      SumOfChanged(packet, k, x);
      OtherSum(Sum(packet), Sum(packet[k := x]), packet[k], x);
    }
  }

  /** A sent frame is read back as it was, after any bytes without a $, exactly when the packet holds no #. */
  lemma FrameRoundTripIff(noise: seq<byte>, packet: seq<byte>, rest: seq<byte>)
    requires DOLLAR !in noise && |packet| <= PACKET_SIZE
    ensures
      var r := Receive(noise + Frame(packet) + rest, PACKET_SIZE + 1);
      r == Received(|packet|, packet, |noise| + |packet| + 4, [PLUS]) <==> HASH !in packet
  {
    var s := noise + Frame(packet) + rest;
    FrameIsAt(noise, packet, rest);
    if HASH !in packet {
      FrameIsRead(s, |noise|, packet);
    } else {
      HashCutsPacket(s, |noise|, packet);
    }
  }
}

/** The register packets g and G: the target's registers as hexadecimal text. */
module GdbRegisters {
  import opened Numbers
  import opened GdbPacket

  /** One register of the target description, its bytes and whether it can be read. */
  datatype Register = Register(available: bool, bytes: seq<byte>)

  /** hex_encode */
  function HexText(data: seq<byte>): (text: seq<byte>)
    ensures |text| == 2 * |data|
  {
    if data == [] then []
    else HexText(data[..|data| - 1]) + [Digit(data[|data| - 1] / 16), Digit(data[|data| - 1] % 16)]
  }

  function Unavailable(size: nat): (text: seq<byte>)
    ensures |text| == 2 * size
  {
    seq(2 * size, _ => LOWER_X)
  }

  function TextOf(r: Register): (text: seq<byte>)
    ensures |text| == 2 * |r.bytes|
  {
    if r.available then HexText(r.bytes) else Unavailable(|r.bytes|)
  }

  /** The reply to g. */
  function AllText(regs: seq<Register>): (text: seq<byte>) {
    if regs == [] then [] else TextOf(regs[0]) + AllText(regs[1..])
  }

  /** The byte of two hexadecimal digits. */
  function Pair(hi: byte, lo: byte): Option<byte> {
    if HexValue(hi) < 0 || HexValue(lo) < 0 then None else Some(16 * HexValue(hi) + HexValue(lo))
  }

  /** The first `n` bytes of hexadecimal text, unless a digit is wrong. */
  function Decoded(text: seq<byte>, n: nat): (data: Option<seq<byte>>)
    requires 2 * n <= |text|
    ensures data.Some? ==> |data.value| == n
  {
    if n == 0 then Some([])
    else
      match Pair(text[2 * n - 2], text[2 * n - 1])
      case None => None
      case Some(x) => if Decoded(text, n - 1).None? then None else Some(Decoded(text, n - 1).value + [x])
  }

  /** strspn(text, "x") */
  function Span(text: seq<byte>): (n: nat)
    ensures n <= |text|
  {
    if text == [] || text[0] != LOWER_X then 0 else 1 + Span(text[1..])
  }

  datatype Reply = Ok | E01 | E02

  /** The G packet from register `k` on; `writes` tells which registers the target accepts. */
  function Written(text: seq<byte>, regs: seq<Register>, k: nat, writes: nat -> bool): (r: (Reply, seq<Register>))
    requires k <= |regs|
    decreases |regs| - k
  {
    if k == |regs| then (if text == [] then Ok else E01, regs)
    else
      var size := |regs[k].bytes|;
      if |text| < 2 * size then (E01, regs)
      else if Span(text) >= 2 * size then Written(text[2 * size..], regs, k + 1, writes)
      else
        match Decoded(text, size)
        case None => (E01, regs)
        case Some(data) =>
          if !writes(k) then (E02, regs)
          else Written(text[2 * size..], regs[k := regs[k].(bytes := data)], k + 1, writes)
  }

  // ---- Hexadecimal round trip ----

  lemma PairOfDigits(x: byte)
    ensures Pair(Digit(x / 16), Digit(x % 16)) == Some(x)
  {
  }

  /** Decoding gives back what was encoded, whatever follows. */
  lemma {:induction false} DecodedHexText(text: seq<byte>, data: seq<byte>)
    requires 2 * |data| <= |text| && text[..2 * |data|] == HexText(data)
    ensures Decoded(text, |data|) == Some(data)
  {
    if data != [] {
      var n := |data|;
      assert text[..2 * n][..2 * n - 2] == text[..2 * n - 2];
      DecodedHexText(text, data[..n - 1]);
      assert text[2 * n - 2] == HexText(data)[2 * n - 2] && text[2 * n - 1] == HexText(data)[2 * n - 1];
      PairOfDigits(data[n - 1]);
      assert data[..n - 1] + [data[n - 1]] == data;
    }
  }

  lemma {:induction false} HexTextHead(data: seq<byte>)
    requires data != []
    ensures HexText(data)[0] != LOWER_X
  {
    if |data| > 1 {
      HexTextHead(data[..|data| - 1]);
    }
  }

  lemma {:induction false} SpanAtLeast(text: seq<byte>, n: nat)
    requires n <= |text| && forall i :: 0 <= i < n ==> text[i] == LOWER_X
    ensures Span(text) >= n
  {
    if n > 0 {
      SpanAtLeast(text[1..], n - 1);
    }
  }

  /** Two digits a byte, the high one first, in lower case. */
  lemma {:induction false} HexTextAt(data: seq<byte>, k: nat)
    requires k < |data|
    ensures HexText(data)[2 * k] == LOWER_DIGITS[data[k] / 16] as int
    ensures HexText(data)[2 * k + 1] == LOWER_DIGITS[data[k] % 16] as int
  {
    var n := |data| - 1;
    if k < n {
      HexTextAt(data[..n], k);
    } else {
      HexValueIff(0, data[k] / 16);
      HexValueIff(0, data[k] % 16);
    }
  }

  /** Where the text of register `i` starts: two characters for every byte of the registers before it. */
  function Offset(regs: seq<Register>, i: nat): nat
    requires i <= |regs|
  {
    if i == 0 then 0 else Offset(regs, i - 1) + 2 * |regs[i - 1].bytes|
  }

  lemma {:induction false} OffsetInRest(regs: seq<Register>, i: nat)
    requires 0 < i <= |regs|
    ensures Offset(regs, i) == 2 * |regs[0].bytes| + Offset(regs[1..], i - 1)
  {
    if i > 1 {
      OffsetInRest(regs, i - 1);
    }
  }

  lemma {:induction false} AllTextLength(regs: seq<Register>)
    ensures |AllText(regs)| == Offset(regs, |regs|)
  {
    if regs != [] {
      AllTextLength(regs[1..]);
      OffsetInRest(regs, |regs|);
    }
  }

  lemma {:induction false} AllTextAt(regs: seq<Register>, i: nat, k: nat)
    requires i < |regs| && k < 2 * |regs[i].bytes|
    ensures Offset(regs, i) + k < |AllText(regs)| && AllText(regs)[Offset(regs, i) + k] == TextOf(regs[i])[k]
  {
    var head, rest := TextOf(regs[0]), regs[1..];
    if i > 0 {
      AllTextAt(rest, i - 1, k);
      OffsetInRest(regs, i);
      var at := Offset(rest, i - 1) + k;
      assert (head + AllText(rest))[|head| + at] == AllText(rest)[at];
    }
  }

  /** The g reply has two characters for every byte of every register: the digits of its bytes, high digit first, or
      x if the register cannot be read. */
  lemma ReplyAt(regs: seq<Register>, i: nat, k: nat)
    requires i < |regs| && k < |regs[i].bytes|
    ensures
      var at, r := Offset(regs, i) + 2 * k, regs[i];
      && at + 1 < |AllText(regs)| == Offset(regs, |regs|)
      && AllText(regs)[at] == (if r.available then LOWER_DIGITS[r.bytes[k] / 16] else 'x') as int
      && AllText(regs)[at + 1] == (if r.available then LOWER_DIGITS[r.bytes[k] % 16] else 'x') as int
  {
    AllTextLength(regs);
    AllTextAt(regs, i, 2 * k);
    AllTextAt(regs, i, 2 * k + 1);
    if regs[i].available {
      HexTextAt(regs[i].bytes, k);
    }
  }

  // ---- Which G packets are accepted ----

  predicate AllX(text: seq<byte>, o: nat, n: nat)
    requires o + n <= |text|
  {
    forall j :: o <= j < o + n ==> text[j] == 'x' as int
  }

  predicate AllHex(text: seq<byte>, o: nat, n: nat)
    requires o + n <= |text|
  {
    forall j :: o <= j < o + n ==> HexValue(text[j]) >= 0
  }

  /** The text of register `i` leaves it alone, or gives it new bytes that the target accepts. */
  predicate Sound(text: seq<byte>, regs: seq<Register>, i: nat, writes: nat -> bool)
    requires i < |regs|
  {
    var o, n := Offset(regs, i), 2 * |regs[i].bytes|;
    o + n <= |text| && (AllX(text, o, n) || (AllHex(text, o, n) && writes(i)))
  }

  /** Register `r` with its bytes replaced by those that the digits at `o` spell. */
  predicate IsDecoded(text: seq<byte>, o: nat, r: Register, decoded: Register)
    requires o + 2 * |r.bytes| <= |text|
  {
    && decoded.available == r.available && |decoded.bytes| == |r.bytes|
    && forall k :: 0 <= k < |r.bytes| ==>
         decoded.bytes[k] == 16 * HexValue(text[o + 2 * k]) + HexValue(text[o + 2 * k + 1])
  }

  /** The register as it was if its text is all x, else with the bytes its digits spell. */
  predicate IsTaken(text: seq<byte>, o: nat, r: Register, now: Register)
    requires o + 2 * |r.bytes| <= |text|
  {
    if AllX(text, o, 2 * |r.bytes|) then now == r else IsDecoded(text, o, r, now)
  }

  lemma {:induction false} SpanIff(text: seq<byte>, n: nat)
    requires n <= |text|
    ensures Span(text) >= n <==> AllX(text, 0, n)
  {
    if n > 0 && text[0] == LOWER_X {
      SpanIff(text[1..], n - 1);
      assert forall j :: 1 <= j < n ==> text[j] == text[1..][j - 1];
    }
  }

  lemma {:induction false} DecodedIff(text: seq<byte>, n: nat)
    requires 2 * n <= |text|
    ensures Decoded(text, n).Some? <==> AllHex(text, 0, 2 * n)
    ensures Decoded(text, n).Some? ==>
              forall k :: 0 <= k < n ==>
                Decoded(text, n).value[k] == 16 * HexValue(text[2 * k]) + HexValue(text[2 * k + 1])
  {
    if n > 0 {
      DecodedIff(text, n - 1);
    }
  }

  lemma {:induction false} OffsetsGrow(regs: seq<Register>, i: nat, n: nat)
    requires i <= n <= |regs|
    ensures Offset(regs, i) <= Offset(regs, n)
    decreases n
  {
    if i < n {
      OffsetsGrow(regs, i, n - 1);
    }
  }

  lemma {:induction false} OffsetsStay(regs: seq<Register>, others: seq<Register>, i: nat)
    requires SameShape(regs, others) && i <= |regs|
    ensures Offset(regs, i) == Offset(others, i)
  {
    if i > 0 {
      OffsetsStay(regs, others, i - 1);
    }
  }

  /** One register of a G packet in the middle of its text. */
  lemma TextAt(text: seq<byte>, o: nat, size: nat)
    requires o + 2 * size <= |text|
    ensures Span(text[o..]) >= 2 * size <==> AllX(text, o, 2 * size)
    ensures Decoded(text[o..], size).Some? <==> AllHex(text, o, 2 * size)
    ensures Decoded(text[o..], size).Some? ==>
              forall k :: 0 <= k < size ==>
                Decoded(text[o..], size).value[k] == 16 * HexValue(text[o + 2 * k]) + HexValue(text[o + 2 * k + 1])
  {
    SpanIff(text[o..], 2 * size);
    DecodedIff(text[o..], size);
    assert forall j :: o <= j < o + 2 * size ==> text[j] == text[o..][j - o];
  }

  ghost predicate SoundFrom(text: seq<byte>, regs: seq<Register>, k: nat, writes: nat -> bool) {
    forall i :: k <= i < |regs| ==> Sound(text, regs, i, writes)
  }

  lemma SoundIgnoresBytes(text: seq<byte>, regs: seq<Register>, others: seq<Register>, k: nat, writes: nat -> bool)
    requires SameShape(regs, others)
    ensures SoundFrom(text, regs, k, writes) <==> SoundFrom(text, others, k, writes)
  {
    forall i | 0 <= i < |regs|
      ensures Sound(text, regs, i, writes) <==> Sound(text, others, i, writes)
    {
      OffsetsStay(regs, others, i);
    }
  }

  /** One register of a G packet. */
  lemma WrittenOne(text: seq<byte>, regs: seq<Register>, k: nat, writes: nat -> bool)
    requires k < |regs| && Offset(regs, k + 1) <= |text|
    ensures
      var o, size, rest := Offset(regs, k), |regs[k].bytes|, text[Offset(regs, k + 1)..];
      var r := Written(text[o..], regs, k, writes);
      if AllX(text, o, 2 * size) then r == Written(rest, regs, k + 1, writes)
      else if AllHex(text, o, 2 * size) && writes(k)
      then Decoded(text[o..], size).Some?
           && r == Written(rest, regs[k := regs[k].(bytes := Decoded(text[o..], size).value)], k + 1, writes)
      else r.0 != Ok
  {
    var o, size := Offset(regs, k), |regs[k].bytes|;
    TextAt(text, o, size);
    assert text[o..][2 * size..] == text[Offset(regs, k + 1)..];
  }

  /** A register whose text is accepted: the rest of the packet is written over what it makes of the registers. */
  lemma WrittenGoesOn(text: seq<byte>, regs: seq<Register>, k: nat, writes: nat -> bool) returns (more: seq<Register>)
    requires k < |regs| && Sound(text, regs, k, writes)
    ensures SameShape(regs, more) && forall j :: 0 <= j < |regs| && j != k ==> more[j] == regs[j]
    ensures IsTaken(text, Offset(regs, k), regs[k], more[k])
    ensures Written(text[Offset(regs, k)..], regs, k, writes) ==
            Written(text[Offset(regs, k + 1)..], more, k + 1, writes)
  {
    var o, size := Offset(regs, k), |regs[k].bytes|;
    WrittenOne(text, regs, k, writes);
    if AllX(text, o, 2 * size) {
      more := regs;
    } else {
      TextAt(text, o, size);
      more := regs[k := regs[k].(bytes := Decoded(text[o..], size).value)];
    }
  }

  lemma {:induction false} WrittenOkFrom(text: seq<byte>, regs: seq<Register>, k: nat, writes: nat -> bool)
    requires k <= |regs| && Offset(regs, k) <= |text|
    ensures Written(text[Offset(regs, k)..], regs, k, writes).0 == Ok <==>
            |text| == Offset(regs, |regs|) && SoundFrom(text, regs, k, writes)
    decreases |regs| - k
  {
    if k < |regs| {
      OffsetsGrow(regs, k + 1, |regs|);
      if Sound(text, regs, k, writes) {
        var more := WrittenGoesOn(text, regs, k, writes);
        OffsetsStay(regs, more, k + 1);
        OffsetsStay(regs, more, |regs|);
        SoundIgnoresBytes(text, regs, more, k + 1, writes);
        WrittenOkFrom(text, more, k + 1, writes);
      } else if Offset(regs, k + 1) <= |text| {
        WrittenOne(text, regs, k, writes);
      }
    }
  }

  /** A G packet is answered OK exactly when its text has two characters for every byte of every register, and for each
      register they are all x, or all hexadecimal digits and the target accepts the write. */
  lemma WrittenOkIff(text: seq<byte>, regs: seq<Register>, writes: nat -> bool)
    ensures Written(text, regs, 0, writes).0 == Ok <==>
            && |text| == Offset(regs, |regs|)
            && forall i :: 0 <= i < |regs| ==> Sound(text, regs, i, writes)
  {
    assert text[0..] == text;
    WrittenOkFrom(text, regs, 0, writes);
  }

  lemma {:induction false} WrittenKeeps(text: seq<byte>, regs: seq<Register>, k: nat, writes: nat -> bool, i: nat)
    requires i < k <= |regs|
    ensures |Written(text, regs, k, writes).1| == |regs| && Written(text, regs, k, writes).1[i] == regs[i]
    decreases |regs| - k
  {
    if k < |regs| && 2 * |regs[k].bytes| <= |text| {
      var size := |regs[k].bytes|;
      WrittenKeeps(text[2 * size..], regs, k + 1, writes, i);
      if Decoded(text, size).Some? {
        WrittenKeeps(text[2 * size..], regs[k := regs[k].(bytes := Decoded(text, size).value)], k + 1, writes, i);
      }
    }
  }

  lemma WrittenHere(text: seq<byte>, regs: seq<Register>, k: nat, writes: nat -> bool)
    requires k < |regs| && Sound(text, regs, k, writes)
    ensures
      var r := Written(text[Offset(regs, k)..], regs, k, writes).1;
      |r| == |regs| && IsTaken(text, Offset(regs, k), regs[k], r[k])
  {
    var more := WrittenGoesOn(text, regs, k, writes);
    WrittenKeeps(text[Offset(regs, k + 1)..], more, k + 1, writes, k);
  }

  lemma {:induction false} WrittenFromAt(text: seq<byte>, regs: seq<Register>, k: nat, writes: nat -> bool, i: nat)
    requires k <= i < |regs| && Offset(regs, k) <= |text| && SoundFrom(text, regs, k, writes)
    ensures
      var r := Written(text[Offset(regs, k)..], regs, k, writes).1;
      && Offset(regs, i) + 2 * |regs[i].bytes| <= |text| && |r| == |regs|
      && IsTaken(text, Offset(regs, i), regs[i], r[i])
    decreases |regs| - k
  {
    assert Sound(text, regs, i, writes);
    if k == i {
      WrittenHere(text, regs, k, writes);
    } else {
      assert Sound(text, regs, k, writes);
      var more := WrittenGoesOn(text, regs, k, writes);
      OffsetsStay(regs, more, k + 1);
      OffsetsStay(regs, more, i);
      SoundIgnoresBytes(text, regs, more, k + 1, writes);
      WrittenFromAt(text, more, k + 1, writes, i);
    }
  }

  /** A G packet that is answered OK leaves the registers whose text is all x as they were, and gives every other one
      the bytes its digits spell. */
  lemma WrittenAt(text: seq<byte>, regs: seq<Register>, writes: nat -> bool, i: nat)
    requires Written(text, regs, 0, writes).0 == Ok && i < |regs|
    ensures
      var r := Written(text, regs, 0, writes).1;
      && Offset(regs, i) + 2 * |regs[i].bytes| <= |text| && |r| == |regs|
      && IsTaken(text, Offset(regs, i), regs[i], r[i])
  {
    assert text[0..] == text;
    WrittenOkFrom(text, regs, 0, writes);
    WrittenFromAt(text, regs, 0, writes, i);
  }

  // ---- Feeding a g reply back as G ----

  ghost predicate SameShape(a: seq<Register>, b: seq<Register>) {
    |a| == |b| && forall i :: 0 <= i < |a| ==> |a[i].bytes| == |b[i].bytes|
  }

  predicate Carries(r: Register) {
    r.available && r.bytes != []
  }

  /** `now` from register `k` on takes the bytes that `saved` carries. */
  function Restored(saved: seq<Register>, now: seq<Register>, k: nat): (r: seq<Register>)
    requires |saved| == |now| && k <= |now|
    ensures |r| == |now|
    decreases |now| - k
  {
    if k == |now| then now
    else Restored(saved, if Carries(saved[k]) then now[k := now[k].(bytes := saved[k].bytes)] else now, k + 1)
  }

  lemma {:induction false} RestoredAt(saved: seq<Register>, now: seq<Register>, k: nat, i: nat)
    requires |saved| == |now| && k <= |now| && i < |now|
    ensures Restored(saved, now, k)[i] ==
            if k <= i && Carries(saved[i]) then now[i].(bytes := saved[i].bytes) else now[i]
    decreases |now| - k
  {
    if k < |now| {
      RestoredAt(saved, if Carries(saved[k]) then now[k := now[k].(bytes := saved[k].bytes)] else now, k + 1, i);
    }
  }

  /** The target accepts every carried register from `k` on. */
  predicate Accepts(saved: seq<Register>, k: nat, writes: nat -> bool)
    requires k <= |saved|
    decreases |saved| - k
  {
    k == |saved| || ((Carries(saved[k]) ==> writes(k)) && Accepts(saved, k + 1, writes))
  }

  lemma {:induction false} AcceptsIff(saved: seq<Register>, k: nat, writes: nat -> bool)
    requires k <= |saved|
    ensures Accepts(saved, k, writes) <==> forall i: nat :: k <= i < |saved| && Carries(saved[i]) ==> writes(i)
    decreases |saved| - k
  {
    if k < |saved| {
      AcceptsIff(saved, k + 1, writes);
    }
  }

  /** One register of the G packet. */
  lemma TextIsRead(r: Register, tail: seq<byte>)
    ensures Span(TextOf(r) + tail) >= 2 * |r.bytes| <==> !Carries(r)
    ensures Carries(r) ==> Decoded(TextOf(r) + tail, |r.bytes|) == Some(r.bytes)
  {
    var text := TextOf(r) + tail;
    if Carries(r) {
      HexTextHead(r.bytes);
      DecodedHexText(text, r.bytes);
      assert text[0] == HexText(r.bytes)[0];
    } else {
      SpanAtLeast(text, 2 * |r.bytes|);
    }
  }

  lemma WrittenStep(saved: Register, rest: seq<byte>, now: seq<Register>, k: nat, writes: nat -> bool)
    requires k < |now| && |saved.bytes| == |now[k].bytes|
    ensures Written(TextOf(saved) + rest, now, k, writes) ==
            if !Carries(saved) then Written(rest, now, k + 1, writes)
            else if !writes(k) then (E02, now)
            else Written(rest, now[k := now[k].(bytes := saved.bytes)], k + 1, writes)
  {
    var text := TextOf(saved) + rest;
    assert text[2 * |saved.bytes|..] == rest;
    TextIsRead(saved, rest);
  }

  /** The text of registers saved earlier, sent back as a G packet to registers that have changed since: it is
      answered OK exactly when the target accepts every register it carries, and then those have their saved
      bytes back and the unavailable ones are untouched. */
  lemma {:induction false} SavedRegistersRestored(saved: seq<Register>, now: seq<Register>, k: nat, writes: nat -> bool)
    requires SameShape(saved, now) && k <= |now|
    ensures
      var r := Written(AllText(saved[k..]), now, k, writes);
      if Accepts(saved, k, writes) then r == (Ok, Restored(saved, now, k)) else r.0 == E02
    decreases |now| - k
  {
    if k < |now| {
      assert saved[k..][1..] == saved[k + 1..];
      WrittenStep(saved[k], AllText(saved[k + 1..]), now, k, writes);
      if !Carries(saved[k]) {
        SavedRegistersRestored(saved, now, k + 1, writes);
      } else if writes(k) {
        SavedRegistersRestored(saved, now[k := now[k].(bytes := saved[k].bytes)], k + 1, writes);
      }
    }
  }

  // ---- The packets as the loops that serve them ----

  method HexEncode(data: seq<byte>) returns (text: seq<byte>)
    ensures text == HexText(data)
  {
    text := [];
    var i := 0;
    while i < |data|
      invariant i <= |data| && text == HexText(data[..i])
    {
      assert data[..i + 1][..i] == data[..i];
      text := text + [Digit(data[i] / 16), Digit(data[i] % 16)];
      i := i + 1;
    }
    assert data[..i] == data;
  }

  /** The inner loop of G. */
  method DecodeRegister(text: seq<byte>, size: nat) returns (data: Option<seq<byte>>)
    requires 2 * size <= |text|
    ensures data == Decoded(text, size)
  {
    var bytes, i := [], 0;
    while i < size
      invariant i <= size && Decoded(text, i) == Some(bytes)
    {
      var x := Pair(text[2 * i], text[2 * i + 1]);
      if x.None? {
        WrongDigit(text, i + 1, size);
        return None;
      }
      bytes := bytes + [x.value];
      i := i + 1;
    }
    return Some(bytes);
  }

  lemma {:induction false} WrongDigit(text: seq<byte>, i: nat, n: nat)
    requires i <= n && 2 * n <= |text| && Decoded(text, i).None?
    ensures Decoded(text, n).None?
  {
    if i < n {
      WrongDigit(text, i, n - 1);
    }
  }

  class Target {
    var registers: seq<Register>
    const writes: nat -> bool

    constructor (registers: seq<Register>, writes: nat -> bool)
      ensures this.registers == registers && this.writes == writes
    {
      this.registers, this.writes := registers, writes;
    }

    /** The g packet. */
    method ReadAll() returns (text: seq<byte>)
      ensures text == AllText(registers)
    {
      text := [];
      var reg := 0;
      while reg < |registers|
        invariant reg <= |registers| && text + AllText(registers[reg..]) == AllText(registers)
      {
        var one := Unavailable(|registers[reg].bytes|);
        if registers[reg].available {
          one := HexEncode(registers[reg].bytes);
        }
        assert registers[reg..][1..] == registers[reg + 1..];
        text := text + one;
        reg := reg + 1;
      }
    }

    /** The G packet, after its letter. */
    method WriteAll(text: seq<byte>) returns (reply: Reply)
      modifies `registers
      ensures (reply, registers) == Written(text, old(registers), 0, writes)
    {
      var cursor, reg := text, 0;
      while reg < |registers|
        invariant reg <= |registers|
        invariant Written(cursor, registers, reg, writes) == Written(text, old(registers), 0, writes)
      {
        var size := |registers[reg].bytes|;
        if |cursor| < 2 * size {
          return E01;
        }
        if Span(cursor) < 2 * size {
          var data := DecodeRegister(cursor, size);
          if data.None? {
            return E01;
          }
          if !writes(reg) {
            return E02;
          }
          registers := registers[reg := registers[reg].(bytes := data.value)];
        }
        cursor := cursor[2 * size..];
        reg := reg + 1;
      }
      return if cursor == [] then Ok else E01;
    }
  }
}
