/**
 The Meccanoid command protocol: an 18-byte payload whose slot 0 names the
 command, followed by a 2-byte big-endian sum checksum, written to the robot
 as one 20-byte packet. This module holds everything that does not depend on
 the robot's remembered state: the checksum, framing, the transport outcome,
 the fixed handshake, the payload layouts of every command group (each with
 its decoder) and the polarity-reversal rule for mirrored servos.
 */
module Protocol {

  datatype Option<T> = None | Some(value: T)

  datatype FrameError = LengthError | ByteRangeError

  datatype Result<T> = Ok(value: T) | Err(error: FrameError)

  const PayloadLength: nat := 18
  const PacketLength: nat := 20

  const HandshakeCommand: int := 0x0D
  const ServoCommand: int := 0x08
  const ServoLedCommand: int := 0x0C
  const EyeCommand: int := 0x11
  const ChestCommand: int := 0x1C

  /** The centre position of a servo; never reversed. */
  const CenterPosition: int := 0x80

  /** Physical servo slots wired in mirrored orientation. */
  const ReversedServoIndices: seq<int> := [1, 3]

  predicate IsByte(x: int) { 0 <= x <= 255 }

  predicate AllBytes(s: seq<int>) { forall i :: 0 <= i < |s| ==> IsByte(s[i]) }

  function Sum(s: seq<int>): int
  {
    if s == [] then 0 else s[0] + Sum(s[1..])
  }

  lemma {:induction false} SumOfBytes(s: seq<int>)
    requires AllBytes(s)
    ensures 0 <= Sum(s) <= 255 * |s|
  {
    if s != [] {
      assert AllBytes(s[1..]) by {
        forall i | 0 <= i < |s[1..]| ensures IsByte(s[1..][i]) { assert s[1..][i] == s[i + 1]; }
      }
      SumOfBytes(s[1..]);
    }
  }

  lemma {:induction false} SumUpdate(s: seq<int>, i: int, v: int)
    requires 0 <= i < |s|
    ensures Sum(s[i := v]) == Sum(s) - s[i] + v
  {
    if i == 0 {
      assert s[i := v][1..] == s[1..];
    } else {
      assert s[i := v][1..] == s[1..][i - 1 := v];
      SumUpdate(s[1..], i - 1, v);
    }
  }

  lemma ModOfDecomposition(n: int, k: int, m: int)
    requires 0 <= m < 65536 && n == 65536 * k + m
    ensures n % 65536 == m
  {
    var q, r := n / 65536, n % 65536;
    assert n == 65536 * q + r;
    assert 65536 * (q - k) == m - r;
  }

  /** Taking the low byte of the value shifted right by 8, and the low byte of
      the value, gives the value modulo 2^16 as a big-endian pair. */
  lemma HighLow(n: int)
    ensures 256 * ((n / 256) % 256) + n % 256 == n % 65536
  {
    var q, lo := n / 256, n % 256;
    var k, hi := q / 256, q % 256;
    assert n == 256 * q + lo;
    assert q == 256 * k + hi;
    assert n == 65536 * k + (256 * hi + lo);
    ModOfDecomposition(n, k, 256 * hi + lo);
  }

  lemma BytePairUnique(a: int, b: int, c: int, d: int)
    requires IsByte(b) && IsByte(d) && 256 * a + b == 256 * c + d
    ensures a == c && b == d
  {
  }

  /** The checksum of an 18-byte payload: its sum, truncated to 16 bits, as
      [high byte, low byte]. Any other length is refused. Python's `>> 8` and
      `& 0xFF` on integers are floor division by 256 and the non-negative
      remainder modulo 256, which is what Dafny's `/` and `%` compute for the
      positive divisor 256. */
  function CalculateChecksum(payload: seq<int>): (r: Result<seq<int>>)
    ensures r.Err? <==> |payload| != PayloadLength
    ensures r.Err? ==> r.error == LengthError
    ensures r.Ok? ==> |r.value| == 2 && AllBytes(r.value)
    ensures r.Ok? ==> 256 * r.value[0] + r.value[1] == Sum(payload) % 65536
  {
    if |payload| != PayloadLength then Err(LengthError)
    else
      var total := Sum(payload);
      HighLow(total);
      Ok([(total / 256) % 256, total % 256])
  }

  /** For a payload of genuine bytes the sum never exceeds 18 * 255 = 4590, so
      no wrap-around occurs and the checksum is the plain sum split in two. */
  lemma ChecksumOfBytes(payload: seq<int>)
    requires |payload| == PayloadLength && AllBytes(payload)
    ensures CalculateChecksum(payload) == Ok([Sum(payload) / 256, Sum(payload) % 256])
  {
    SumOfBytes(payload);
    var total := Sum(payload);
    var cs := CalculateChecksum(payload).value;
    assert 0 <= total < 65536;
    ModOfDecomposition(total, 0, total);
    assert 0 <= total / 256 < 256;
    BytePairUnique(cs[0], cs[1], total / 256, total % 256);
  }

  /** Changing any one byte of a payload to a different byte value always
      changes its checksum. */
  lemma ChecksumDetectsSingleByteChange(payload: seq<int>, i: int, v: int)
    requires |payload| == PayloadLength && AllBytes(payload)
    requires 0 <= i < PayloadLength && IsByte(v) && v != payload[i]
    ensures CalculateChecksum(payload[i := v]) != CalculateChecksum(payload)
  {
    var changed := payload[i := v];
    assert AllBytes(changed);
    SumUpdate(payload, i, v);
    ChecksumOfBytes(payload);
    ChecksumOfBytes(changed);
    SumOfBytes(payload);
    SumOfBytes(changed);
  }

  /** A received packet is accepted when it has 20 bytes and its last two are
      the checksum of the first 18; the payload is then those 18 bytes. */
  function Unframe(packet: seq<int>): (r: Option<seq<int>>)
    ensures r.Some? ==> |packet| == PacketLength && r.value == packet[..PayloadLength]
    ensures r.Some? ==> packet[PayloadLength..] == CalculateChecksum(packet[..PayloadLength]).value
  {
    if |packet| == PacketLength && IsByte(packet[18]) && IsByte(packet[19])
       && 256 * packet[18] + packet[19] == Sum(packet[..PayloadLength]) % 65536
    then
      var cs := CalculateChecksum(packet[..PayloadLength]).value;
      BytePairUnique(packet[18], packet[19], cs[0], cs[1]);
      assert packet[PayloadLength..] == [packet[18], packet[19]];
      Some(packet[..PayloadLength])
    else None
  }

  /** The 20-byte packet for a payload: the payload followed by its checksum.
      A payload of the wrong length is refused, and so is one holding a value
      outside 0..255, which building the byte string of the packet rejects. */
  function Frame(payload: seq<int>): (r: Result<seq<int>>)
    ensures r.Ok? <==> |payload| == PayloadLength && AllBytes(payload)
    ensures |payload| != PayloadLength ==> r == Err(LengthError)
    ensures |payload| == PayloadLength && !AllBytes(payload) ==> r == Err(ByteRangeError)
    ensures r.Ok? ==> |r.value| == PacketLength && AllBytes(r.value)
    ensures r.Ok? ==> Unframe(r.value) == Some(payload)
  {
    if |payload| != PayloadLength then Err(LengthError)
    else if !AllBytes(payload) then Err(ByteRangeError)
    else
      var packet := payload + CalculateChecksum(payload).value;
      assert packet[..PayloadLength] == payload;
      Ok(packet)
  }

  /** Every packet that unframes, and holds only bytes, is the frame of its payload. */
  lemma FrameUnframe(packet: seq<int>)
    requires AllBytes(packet) && Unframe(packet).Some?
    ensures Frame(Unframe(packet).value) == Ok(packet)
  {
    var payload := packet[..PayloadLength];
    assert AllBytes(payload) by {
      forall i | 0 <= i < |payload| ensures IsByte(payload[i]) { assert payload[i] == packet[i]; }
    }
    var cs := CalculateChecksum(payload).value;
    BytePairUnique(cs[0], cs[1], packet[18], packet[19]);
    assert packet == payload + cs;
  }

  /** What the robot link does with one write: whether a session is connected
      and whether the write itself goes through. */
  datatype Link = Link(connected: bool, writeSucceeds: bool)

  /** The outcome of sending one command: the success flag returned to the
      caller and the packet handed to the link, if one was built. */
  datatype Transmission = Transmission(ok: bool, packet: Option<seq<int>>)

  /** Sending a payload: nothing is built without a connection, a payload that
      does not frame is refused, and otherwise the packet is written and the
      result is whatever the write reports. */
  function SendCommand(link: Link, payload: seq<int>): (r: Transmission)
    ensures r.packet.Some? <==> link.connected && |payload| == PayloadLength && AllBytes(payload)
    ensures r.packet.Some? ==> |r.packet.value| == PacketLength && Unframe(r.packet.value) == Some(payload)
    ensures r.ok <==> r.packet.Some? && link.writeSucceeds
  {
    if !link.connected then Transmission(false, None)
    else if |payload| != PayloadLength then Transmission(false, None)
    else match Frame(payload)
      case Err(_) => Transmission(false, None)
      case Ok(packet) => Transmission(link.writeSucceeds, Some(packet))
  }

  function Zeros(n: nat): seq<int> { seq(n, _ => 0) }

  /** The wake-up command: 0x0D, four zeros, 0xFF, 0xFF, then zeros. */
  const HandshakePayload: seq<int> :=
    [HandshakeCommand, 0, 0, 0, 0, 0xFF, 0xFF, 0, 0, 0, 0, 0, 0, 0, 0, 0, 0, 0]

  /** 0x0D + 0xFF + 0xFF = 0x20B, so the checksum bytes are 0x02, 0x0B. */
  const HandshakePacket: seq<int> := HandshakePayload + [0x02, 0x0B]

  lemma HandshakeSum()
    ensures Sum(HandshakePayload) == 0x20B
  {
    var p := HandshakePayload;
    assert p[1..] == [0, 0, 0, 0, 0xFF, 0xFF] + Zeros(11);
    assert Sum(Zeros(11)) == 0 by { ZerosSum(11); }
    SumAppend([0, 0, 0, 0, 0xFF, 0xFF], Zeros(11));
  }

  lemma HandshakeFrame()
    ensures Frame(HandshakePayload) == Ok(HandshakePacket)
  {
    var p := HandshakePayload;
    assert AllBytes(p) by {
      forall i | 0 <= i < |p| ensures IsByte(p[i]) { }
    }
    var cs := CalculateChecksum(p).value;
    assert cs == [0x02, 0x0B] by {
      HandshakeSum();
      BytePairUnique(cs[0], cs[1], 0x02, 0x0B);
    }
  }

  lemma {:induction false} ZerosSum(n: nat)
    ensures Sum(Zeros(n)) == 0
  {
    if n > 0 {
      assert Zeros(n)[1..] == Zeros(n - 1);
      ZerosSum(n - 1);
    }
  }

  lemma {:induction false} SumAppend(a: seq<int>, b: seq<int>)
    ensures Sum(a + b) == Sum(a) + Sum(b)
  {
    if a != [] {
      assert (a + b)[1..] == a[1..] + b;
      SumAppend(a[1..], b);
    } else {
      assert a + b == b;
    }
  }

  /** A command that carries two 8-slot arrays and one trailing byte: the servo
      command (positions, LED modes, foot-LED byte) and the servo-LED command
      (colours, LED modes, trailing byte). */
  datatype Group = Group(command: int, first: seq<int>, second: seq<int>, last: int)

  function EncodeGroup(g: Group): (p: seq<int>)
    ensures |p| == 2 + |g.first| + |g.second|
    ensures IsByte(g.command) && AllBytes(g.first) && AllBytes(g.second) && IsByte(g.last) ==> AllBytes(p)
  {
    [g.command] + g.first + g.second + [g.last]
  }

  function DecodeGroup(p: seq<int>): (r: Option<Group>)
    ensures r.Some? ==> |r.value.first| == 8 && |r.value.second| == 8
  {
    if |p| == PayloadLength then Some(Group(p[0], p[1..9], p[9..17], p[17])) else None
  }

  /** A group decodes back from its payload exactly when both arrays have 8 slots. */
  lemma GroupRoundTrip(g: Group)
    ensures DecodeGroup(EncodeGroup(g)) == Some(g) <==> |g.first| == 8 && |g.second| == 8
  {
    var p := EncodeGroup(g);
    if |g.first| == 8 && |g.second| == 8 {
      assert p[1..9] == g.first;
      assert p[9..17] == g.second;
    }
  }

  lemma DecodeGroupInverse(p: seq<int>)
    requires DecodeGroup(p).Some?
    ensures EncodeGroup(DecodeGroup(p).value) == p
  {
    var g := DecodeGroup(p).value;
    assert EncodeGroup(g) == [p[0]] + p[1..9] + p[9..17] + [p[17]];
    assert p == [p[0]] + p[1..9] + p[9..17] + [p[17]];
  }

  predicate IsColorComponent(c: int) { 0 <= c <= 7 }

  /** The eye byte `(g << 3) | r`; with both components in 0..7 the or-ing
      never overlaps, so it is 8 * g + r. */
  function PackEye(r: int, g: int): (v: int)
    requires IsColorComponent(r) && IsColorComponent(g)
    ensures v == 8 * g + r
  {
    (((g as bv8) << 3) | (r as bv8)) as int
  }

  /** The eye command: slot 3 holds the packed red/green byte, slot 4 blue,
      and every other slot after the command byte is zero. */
  function EyePayload(r: int, g: int, b: int): (p: seq<int>)
    requires IsColorComponent(r) && IsColorComponent(g) && IsColorComponent(b)
    ensures |p| == PayloadLength && AllBytes(p)
  {
    [EyeCommand, 0, 0, PackEye(r, g), b] + Zeros(13)
  }

  datatype Rgb = Rgb(r: int, g: int, b: int)

  function DecodeEye(p: seq<int>): Option<Rgb>
  {
    if |p| == PayloadLength && p[0] == EyeCommand && 0 <= p[3]
    then Some(Rgb(p[3] % 8, p[3] / 8, p[4]))
    else None
  }

  lemma EyeRoundTrip(r: int, g: int, b: int)
    requires IsColorComponent(r) && IsColorComponent(g) && IsColorComponent(b)
    ensures DecodeEye(EyePayload(r, g, b)) == Some(Rgb(r, g, b))
    ensures forall i :: 0 <= i < PayloadLength && i != 0 && i != 3 && i != 4 ==> EyePayload(r, g, b)[i] == 0
  {
    var v := PackEye(r, g);
    assert v == 8 * g + r;
    assert v % 8 == r && v / 8 == g;
  }

  /** The standalone chest-LED command: slots 1..4 hold the four statuses. */
  function ChestPayload(status: seq<int>): (p: seq<int>)
    requires |status| == 4
    ensures |p| == PayloadLength
    ensures AllBytes(status) ==> AllBytes(p)
  {
    [ChestCommand] + status + Zeros(13)
  }

  function DecodeChest(p: seq<int>): Option<seq<int>>
  {
    if |p| == PayloadLength && p[0] == ChestCommand then Some(p[1..5]) else None
  }

  lemma ChestRoundTrip(status: seq<int>)
    requires |status| == 4
    ensures DecodeChest(ChestPayload(status)) == Some(status)
    ensures forall i :: 5 <= i < PayloadLength ==> ChestPayload(status)[i] == 0
  {
    assert ChestPayload(status)[1..5] == status;
  }

  /** The value actually sent for a servo: mirrored slots get 0xFF - v, except
      for the centre, which is sent as it is. */
  function Reverse(index: int, v: int): (r: int)
    ensures IsByte(v) ==> IsByte(r)
    ensures r == v <==> index !in ReversedServoIndices || v == CenterPosition
    ensures r != v ==> r == 0xFF - v
  {
    if index in ReversedServoIndices && v != CenterPosition then 0xFF - v else v
  }

  /** Reversing twice restores the value, except for 0x7F on a mirrored slot:
      0xFF - 0x7F is the centre, which is then left alone. */
  lemma ReverseTwice(index: int, v: int)
    ensures Reverse(index, Reverse(index, v)) == v <==> !(index in ReversedServoIndices && v == 0x7F)
  {
  }
}
