/** The packets of the tunnel: one type byte, then a body in network byte order. */
module TunnelProtocol {

  type Byte = b: int | 0 <= b < 256

  type Bytes = seq<Byte>

  const PACKET_CONNECT: Byte := 1
  const PACKET_DATA: Byte := 2
  const PACKET_CLOSE: Byte := 3
  const PACKET_REGISTER: Byte := 4
  const PACKET_REGISTERED: Byte := 5

  const HEAD_LEN: nat := 1
  const CONNECT_HEAD_LEN: nat := 2
  const DATA_HEAD_LEN: nat := 3
  const ROUTE_MAX: nat := 255

  // ------------------------------------------------------------------ the packets as values

  datatype Packet =
    | Connect(route: Bytes)
    | Data(payload: Bytes)
    | Close
    | Other(kind: Byte)

  /** What a sender may put on the wire. */
  predicate Sendable(p: Packet) {
    match p
    case Connect(route) => |route| <= ROUTE_MAX
    case Data(payload) => |payload| < 0x1_0000
    case Close => true
    case Other(kind) => kind !in {PACKET_CONNECT, PACKET_DATA, PACKET_CLOSE}
  }

  function Wire(p: Packet): (w: Bytes)
    requires Sendable(p)
  {
    match p
    case Connect(route) => [PACKET_CONNECT, |route|] + route
    case Data(payload) => [PACKET_DATA, |payload| / 256, |payload| % 256] + payload
    case Close => [PACKET_CLOSE]
    case Other(kind) => [kind]
  }

  /** The bytes of each packet: its type, the length of a route in one byte or of a payload in two
      with the more significant one first, and then the route or payload. */
  lemma WireLayout(p: Packet)
    requires Sendable(p)
    ensures var w := Wire(p);
            match p
            case Connect(route) => |w| == 2 + |route| && w[0] == 1 && w[1] == |route| && w[2..] == route
            case Data(payload) =>
              |w| == 3 + |payload| && w[0] == 2 && w[1] as int * 256 + w[2] as int == |payload| && w[3..] == payload
            case Close => w == [3]
            case Other(kind) => w == [kind]
  {
    if p.Data? { assert |p.payload| == |p.payload| / 256 * 256 + |p.payload| % 256; }
  }

  datatype Parsed = Malformed | Packet(packet: Packet)

  /** `parse`, on the first n bytes of a buffer; a CONNECT's route is read afterwards. */
  function Parse(buf: Bytes): (r: Parsed) {
    if |buf| < HEAD_LEN then Malformed
    else if buf[0] == PACKET_DATA then
      if |buf| < DATA_HEAD_LEN then Malformed
      else
        var len := buf[1] as int * 256 + buf[2] as int;
        if DATA_HEAD_LEN + len > |buf| then Malformed
        else Packet(Data(buf[DATA_HEAD_LEN..DATA_HEAD_LEN + len]))
    else if buf[0] == PACKET_CONNECT then
      if |buf| < CONNECT_HEAD_LEN then Malformed
      else if CONNECT_HEAD_LEN + buf[1] > |buf| then Malformed
      else Packet(Connect(buf[CONNECT_HEAD_LEN..CONNECT_HEAD_LEN + buf[1]]))
    else if buf[0] == PACKET_CLOSE then Packet(Close)
    else Packet(Other(buf[0]))
  }

  /** Parsing undoes packing, whatever bytes follow the packet in the buffer. */
  lemma ParseWire(p: Packet, rest: Bytes)
    requires Sendable(p)
    ensures Parse(Wire(p) + rest) == Packet(p)
  {
    var w := Wire(p) + rest;
    match p
    case Connect(route) =>
      assert w[CONNECT_HEAD_LEN..CONNECT_HEAD_LEN + |route|] == route;
    case Data(payload) =>
      assert w[DATA_HEAD_LEN..DATA_HEAD_LEN + |payload|] == payload;
    case Close =>
    case Other(kind) =>
  }

  /** What an accepted buffer begins with. */
  lemma ParsedWire(buf: Bytes)
    requires Parse(buf).Packet?
    ensures Sendable(Parse(buf).packet) && Wire(Parse(buf).packet) <= buf
  {
    match Parse(buf).packet
    case Connect(route) => assert Wire(Connect(route)) == buf[..CONNECT_HEAD_LEN + |route|];
    case Data(payload) => assert Wire(Data(payload)) == buf[..DATA_HEAD_LEN + |payload|];
    case Close => assert Wire(Close) == buf[..1];
    case Other(kind) => assert Wire(Other(kind)) == buf[..1];
  }

  /** Exactly the buffers that begin with a packet are accepted, and the packet is theirs. */
  lemma ParseAccepts(buf: Bytes, p: Packet)
    ensures Parse(buf) == Packet(p) <==> Sendable(p) && Wire(p) <= buf
  {
    if Sendable(p) && Wire(p) <= buf {
      ParseWire(p, buf[|Wire(p)|..]);
      assert buf == Wire(p) + buf[|Wire(p)|..];
    }
    if Parse(buf) == Packet(p) { ParsedWire(buf); }
    hide Parse, Wire, Sendable;
  }

  // ------------------------------------------------------------------ packing into a buffer

  /** memcpy of `data` to offset `at`. */
  method Copy(out: array<Byte>, at: nat, data: Bytes)
    requires at + |data| <= out.Length
    modifies out
    ensures out[..] == old(out[..at]) + data + old(out[at + |data|..])
  {
    var i := 0;
    while i < |data|
      invariant 0 <= i <= |data|
      invariant out[..at] == old(out[..at]) && out[at + |data|..] == old(out[at + |data|..])
      invariant out[at..at + i] == data[..i]
    {
      out[at + i] := data[i];
      i := i + 1;
    }
    assert out[..] == out[..at] + out[at..at + |data|] + out[at + |data|..];
  }

  method PackConnect(out: array<Byte>, route: Bytes) returns (n: nat)
    requires |route| <= ROUTE_MAX && CONNECT_HEAD_LEN + |route| <= out.Length
    modifies out
    ensures n <= out.Length && out[..n] == Wire(Connect(route)) && out[n..] == old(out[n..])
  {
    out[0] := PACKET_CONNECT;
    out[1] := |route|;
    Copy(out, CONNECT_HEAD_LEN, route);
    n := CONNECT_HEAD_LEN + |route|;
  }

  method PackData(out: array<Byte>, data: Bytes) returns (n: nat)
    requires |data| < 0x1_0000 && DATA_HEAD_LEN + |data| <= out.Length
    modifies out
    ensures n <= out.Length && out[..n] == Wire(Data(data)) && out[n..] == old(out[n..])
  {
    out[0] := PACKET_DATA;
    Copy(out, 1, [|data| / 256, |data| % 256]);
    Copy(out, DATA_HEAD_LEN, data);
    n := DATA_HEAD_LEN + |data|;
  }

  // ------------------------------------------------------------------ the REGISTERED answer

  function RegisteredWire(conv: nat): (w: Bytes)
    requires conv < 0x1_0000_0000
  {
    [PACKET_REGISTERED, conv / 0x100_0000, conv / 0x1_0000 % 256, conv / 256 % 256, conv % 256]
  }

  datatype Answer = NoAnswer | Answer(conv: nat)

  function ReadRegistered(buf: Bytes): (r: Answer) {
    if |buf| < 5 || buf[0] != PACKET_REGISTERED then NoAnswer
    else Answer(((buf[1] as int * 256 + buf[2] as int) * 256 + buf[3] as int) * 256 + buf[4] as int)
  }

  /** Four bytes, most significant first, make up the number again. */
  lemma FourBytes(n: nat)
    requires n < 0x1_0000_0000
    ensures n / 0x1_0000 == n / 0x100_0000 * 256 + n / 0x1_0000 % 256
    ensures n / 256 == n / 0x1_0000 * 256 + n / 256 % 256
    ensures n == n / 256 * 256 + n % 256 && n / 0x100_0000 < 256
  {
    assert n / 0x100_0000 == n / 0x1_0000 / 256 && n / 0x1_0000 == n / 256 / 256;
  }

  /** The answer: its type, and the number in four bytes, the most significant one first. */
  lemma RegisteredLayout(conv: nat)
    requires conv < 0x1_0000_0000
    ensures var w := RegisteredWire(conv);
            && |w| == 5 && w[0] == 5
            && w[1] as int * 0x100_0000 + w[2] as int * 0x1_0000 + w[3] as int * 256 + w[4] as int == conv
  {
    FourBytes(conv);
  }

  lemma ReadWritten(conv: nat, rest: Bytes)
    requires conv < 0x1_0000_0000
    ensures ReadRegistered(RegisteredWire(conv) + rest) == Answer(conv)
  {
    FourBytes(conv);
    var a, b, c := conv / 0x100_0000, conv / 0x1_0000, conv / 256;
    assert (a * 256 + b % 256) * 256 == b * 256;
    assert (b * 256 + c % 256) * 256 == c * 256;
  }

  // ------------------------------------------------------------------ the route of a CONNECT

  /** `read_connect_route`: copies at most cap - 1 bytes and a terminator. */
  method ReadConnectRoute(buf: Bytes, out: array<Byte>) returns (rl: nat)
    requires |buf| >= CONNECT_HEAD_LEN && CONNECT_HEAD_LEN + buf[1] <= |buf| && out.Length > 0
    modifies out
    ensures rl == if buf[1] < out.Length then buf[1] else out.Length - 1
    ensures out[..rl] == buf[CONNECT_HEAD_LEN..CONNECT_HEAD_LEN + rl] && out[rl] == 0
  {
    rl := buf[1];
    if rl >= out.Length {
      rl := out.Length - 1;
    }
    Copy(out, 0, buf[CONNECT_HEAD_LEN..CONNECT_HEAD_LEN + rl]);
    out[rl] := 0;
  }

  /** A buffer read as text: up to the first zero byte. */
  function Text(buf: Bytes): (r: Bytes)
    ensures r <= buf && 0 !in r && (|r| < |buf| ==> buf[|r|] == 0)
  {
    if buf == [] || buf[0] == 0 then [] else [buf[0]] + Text(buf[1..])
  }
}
