/** The network message around a packet (gsbox/src/netpacket.cpp): an 18-byte header in front of
    a payload of tagged values. */
module NetCodec {
  import opened Frames
  import opened Packets

  const PROTOCOL_FLAG: uint32 := 0x4753_4b4a
  const PROTOCOL_VERSION: uint32 := 65536
  const HEADER := 18
  const BUFFER_SIZE := 1024

  /** int2Data writes the flag with its high byte first. */
  function BE32(n: uint32): seq<byte> {
    [n / 0x100_0000, n / 0x1_0000 % 256, n / 0x100 % 256, n % 256]
  }

  function FromBE32(b: seq<byte>): uint32
    requires |b| == 4
  {
    b[0] as int * 0x100_0000 + b[1] as int * 0x1_0000 + b[2] as int * 0x100 + b[3] as int
  }

  datatype Header = Header(flag: uint32, version: uint32, id: uint32, command: byte, ack: byte, length: uint32)

  function HeaderBytes(h: Header): seq<byte> {
    BE32(h.flag) + LE32(h.version) + LE32(h.id) + [h.command, h.ack] + LE32(h.length)
  }

  /** Reading the six fields off the first 18 bytes. */
  function HeaderOf(b: seq<byte>): Header
    requires |b| >= HEADER
  {
    Header(FromBE32(b[0..4]), FromLE32(b[4..8]), FromLE32(b[8..12]), b[12], b[13], FromLE32(b[14..18]))
  }

  /** The layout of the header: the flag high byte first, the other numbers low byte first. */
  lemma HeaderLayout(h: Header)
    ensures var b := HeaderBytes(h);
            && |b| == 18
            && h.flag == 16777216 * b[0] as int + 65536 * b[1] as int + 256 * b[2] as int + b[3] as int
            && h.version == b[4] as int + 256 * b[5] as int + 65536 * b[6] as int + 16777216 * b[7] as int
            && h.id == b[8] as int + 256 * b[9] as int + 65536 * b[10] as int + 16777216 * b[11] as int
            && h.command == b[12] && h.ack == b[13]
            && h.length == b[14] as int + 256 * b[15] as int + 65536 * b[16] as int + 16777216 * b[17] as int
  {
    BigEndian(h.flag);
    LittleEndian(0, h.version);
    LittleEndian(0, h.id);
    LittleEndian(0, h.length);
  }

  lemma BigEndian(n: uint32)
    ensures FromBE32(BE32(n)) == n
  {
    assert n / 0x1_0000 == n / 0x100 / 256 && n / 0x100_0000 == n / 0x1_0000 / 256;
  }

  lemma HeaderRoundTrip(h: Header, rest: seq<byte>)
    ensures |HeaderBytes(h)| == HEADER
    ensures HeaderOf(HeaderBytes(h) + rest) == h
  {
    var b := HeaderBytes(h) + rest;
    assert b[0..4] == BE32(h.flag);
    assert b[4..8] == LE32(h.version);
    assert b[8..12] == LE32(h.id);
    assert b[12] == h.command && b[13] == h.ack;
    assert b[14..18] == LE32(h.length);
    BigEndian(h.flag);
    LittleEndian(0, h.version);
    LittleEndian(0, h.id);
    LittleEndian(0, h.length);
  }

  class NetPacket {
    const packet: Packet
    var flag: uint32
    var version: uint32
    var id: uint32
    var command: byte
    var ack: byte
    var length: uint32

    /** A message to be filled: its payload begins behind the room for the header. */
    constructor ()
      ensures fresh(packet) && fresh(packet.buffer) && packet.buffer.Length == BUFFER_SIZE
      ensures packet.InBuffer() && packet.pos == HEADER && packet.size == 0
    {
      packet := new Packet(BUFFER_SIZE);
      flag, version, id, command, ack, length := 0, 0, 0, 0, 0, 0;
      new;
      packet.pos := HEADER;
    }

    /** A received message. */
    constructor Received(data: seq<byte>)
      requires |data| <= BUFFER_SIZE
      ensures fresh(packet) && fresh(packet.buffer) && packet.buffer.Length == BUFFER_SIZE
      ensures packet.InBuffer() && packet.pos == 0 && packet.size == |data| && packet.buffer[..|data|] == data
    {
      packet := new Packet(BUFFER_SIZE);
      flag, version, id, command, ack, length := 0, 0, 0, 0, 0, 0;
      new;
      forall i | 0 <= i < |data| {
        packet.buffer[i] := data[i];
      }
      packet.size := |data|;
    }

    /** EncodeBuffer: the header goes in front of the payload written so far. */
    method EncodeBuffer()
      requires packet.buffer.Length >= HEADER && 0 <= packet.size < 0x1_0000_0000
      modifies this`length, packet, packet.buffer
      ensures length == old(packet.size) && packet.InBuffer()
      ensures var h := Header(0x4753_4b4a, 65536, id, command, ack, length);
              packet.View() == PacketV(HeaderBytes(h), old(packet.buffer[18..]), length + 18)
    {
      packet.pos := 0;
      length := packet.size;
      ghost var p := packet.View();
      PutHeader(p, Header(PROTOCOL_FLAG, PROTOCOL_VERSION, id, command, ack, length));
      WriteIds();
      WriteKinds();
    }

    /** The first three fields. */
    method WriteIds()
      requires packet.InBuffer() && packet.View().Room(12)
      modifies packet, packet.buffer
      ensures packet.InBuffer()
          && packet.View() == Put(old(packet.View()), IdBytes(PROTOCOL_FLAG, PROTOCOL_VERSION, id))
    {
      ghost var p := packet.View();
      Int2Data(PROTOCOL_FLAG);
      packet.WriteInt32(PROTOCOL_VERSION);
      PutPut(p, BE32(PROTOCOL_FLAG), LE32(PROTOCOL_VERSION));
      packet.WriteInt32(id);
      PutPut(p, BE32(PROTOCOL_FLAG) + LE32(PROTOCOL_VERSION), LE32(id));
    }

    /** The last three. */
    method WriteKinds()
      requires packet.InBuffer() && packet.View().Room(6)
      modifies packet, packet.buffer
      ensures packet.InBuffer() && packet.View() == Put(old(packet.View()), KindBytes(command, ack, length))
    {
      ghost var p := packet.View();
      packet.WriteByte(command);
      packet.WriteByte(ack);
      PutPut(p, [command], [ack]);
      packet.WriteInt32(length);
      PutPut(p, [command] + [ack], LE32(length));
    }

    /** int2Data. */
    method Int2Data(n: uint32)
      requires packet.InBuffer() && packet.View().Room(4)
      modifies packet, packet.buffer
      ensures packet.InBuffer() && packet.View() == Put(old(packet.View()), BE32(n))
    {
      packet.buffer[packet.pos] := n / 0x100_0000;
      packet.buffer[packet.pos + 1] := n / 0x1_0000 % 256;
      packet.buffer[packet.pos + 2] := n / 0x100 % 256;
      packet.buffer[packet.pos + 3] := n % 256;
      packet.pos := packet.pos + 4;
      packet.size := packet.size + 4;
    }

    /** Decode. It asks for 16 bytes although it reads 18. */
    method Decode() returns (ok: bool)
      requires packet.pos == 0 && packet.buffer.Length >= HEADER
      modifies this, packet
      ensures ok <==> old(packet.size) >= 16 && HeaderOf(packet.buffer[..]).flag == 0x4753_4b4a
      ensures ok ==>
                && Header(flag, version, id, command, ack, length) == HeaderOf(packet.buffer[..])
                && packet.pos == 18 && packet.size == old(packet.size) - 18
    {
      if packet.size < 16 {
        return false;
      }
      flag := Data2Int();
      version := ReadInt32();
      if flag != PROTOCOL_FLAG {
        return false;
      }
      id := ReadInt32();
      command := packet.ReadByte();
      ack := packet.ReadByte();
      length := ReadInt32();
      return true;
    }

    /** data2Int. */
    method Data2Int() returns (n: uint32)
      requires packet.pos + 4 <= packet.buffer.Length
      modifies packet
      ensures n == FromBE32(packet.buffer[old(packet.pos)..old(packet.pos) + 4])
      ensures packet.pos == old(packet.pos) + 4 && packet.size == old(packet.size) - 4
    {
      n := FromBE32(packet.buffer[packet.pos..packet.pos + 4]);
      packet.pos := packet.pos + 4;
      packet.size := packet.size - 4;
    }

    /** ReadInt32 of the packet. */
    method ReadInt32() returns (n: uint32)
      requires packet.pos + 4 <= packet.buffer.Length
      modifies packet
      ensures n == FromLE32(packet.buffer[old(packet.pos)..old(packet.pos) + 4])
      ensures packet.pos == old(packet.pos) + 4 && packet.size == old(packet.size) - 4
    {
      n := FromLE32(packet.buffer[packet.pos..packet.pos + 4]);
      packet.pos := packet.pos + 4;
      packet.size := packet.size - 4;
    }
  }

  function IdBytes(flag: uint32, version: uint32, id: uint32): seq<byte> {
    BE32(flag) + LE32(version) + LE32(id)
  }

  function KindBytes(command: byte, ack: byte, length: uint32): seq<byte> {
    [command] + [ack] + LE32(length)
  }

  /** Writing the two halves in turn is writing the header in place of the first 18 bytes. */
  lemma PutHeader(p: PacketV, h: Header)
    requires p.Room(HEADER) && p.front == []
    ensures |HeaderBytes(h)| == HEADER
    ensures var q := Put(p, IdBytes(h.flag, h.version, h.id));
            && q.Room(6)
            && Put(q, KindBytes(h.command, h.ack, h.length))
                == PacketV(HeaderBytes(h), p.back[HEADER..], p.size + HEADER)
  {
    var a, b := IdBytes(h.flag, h.version, h.id), KindBytes(h.command, h.ack, h.length);
    PutPut(p, a, b);
    assert [] + (a + b) == HeaderBytes(h);
  }

  // ---------- a whole message ----------

  ghost predicate AllEncodable(vs: seq<Value>) {
    forall i :: 0 <= i < |vs| ==> Encodable(vs[i])
  }

  function WireAll(vs: seq<Value>): seq<byte>
    requires AllEncodable(vs)
  {
    if vs == [] then [] else Wire(vs[0]) + WireAll(vs[1..])
  }

  function UnsubtractedAll(vs: seq<Value>): nat {
    if vs == [] then 0 else Unsubtracted(vs[0]) + UnsubtractedAll(vs[1..])
  }

  /** Writing values one after the other. */
  lemma {:induction false} PutAll(p: PacketV, vs: seq<Value>)
    requires AllEncodable(vs) && p.Room(|WireAll(vs)|) && vs != []
    ensures Put(p, Wire(vs[0])).Room(|WireAll(vs[1..])|)
    ensures Put(p, WireAll(vs)) == Put(Put(p, Wire(vs[0])), WireAll(vs[1..]))
  {
    PutPut(p, Wire(vs[0]), WireAll(vs[1..]));
  }

  /** The reads of the kinds of `vs`, one after the other. */
  ghost predicate ReadsBack(p: PacketV, vs: seq<Value>, last: PacketV)
    decreases |vs|
  {
    if vs == [] then p == last
    else Readable(p, vs[0]) && Take(p, vs[0]).0 == vs[0] && ReadsBack(Take(p, vs[0]).1, vs[1..], last)
  }

  lemma ReadsBackCons(p: PacketV, vs: seq<Value>, q: PacketV, last: PacketV)
    requires vs != [] && Readable(p, vs[0]) && Take(p, vs[0]) == (vs[0], q) && ReadsBack(q, vs[1..], last)
    ensures ReadsBack(p, vs, last)
  {
  }

  /** The packet after all of vs has been read from it. */
  ghost function ReadAll(front: seq<byte>, vs: seq<Value>, rest: seq<byte>, size: int): PacketV
    requires AllEncodable(vs)
  {
    PacketV(front + WireAll(vs), rest, size - |WireAll(vs)| + UnsubtractedAll(vs))
  }

  lemma ReadAllCons(front: seq<byte>, vs: seq<Value>, rest: seq<byte>, size: int)
    requires AllEncodable(vs) && vs != []
    ensures var w := Wire(vs[0]);
            ReadAll(front, vs, rest, size) == ReadAll(front + w, vs[1..], rest, size - |w| + Unsubtracted(vs[0]))
  {
    assert front + (Wire(vs[0]) + WireAll(vs[1..])) == front + Wire(vs[0]) + WireAll(vs[1..]);
  }

  lemma {:induction false} ValuesReadBack(front: seq<byte>, vs: seq<Value>, rest: seq<byte>, size: int)
    requires AllEncodable(vs)
    ensures ReadsBack(PacketV(front, WireAll(vs) + rest, size), vs, ReadAll(front, vs, rest, size))
    decreases |vs|
  {
    if vs == [] {
      assert [] + rest == rest && front + [] == front;
    } else {
      var q := FirstReadBack(front, vs, rest, size);
      ValuesReadBack(q.front, vs[1..], rest, q.size);
      ReadAllCons(front, vs, rest, size);
      ReadsBackCons(PacketV(front, WireAll(vs) + rest, size), vs, q, ReadAll(front, vs, rest, size));
    }
  }

  lemma Regroup(a: seq<byte>, b: seq<byte>, c: seq<byte>)
    ensures a + b + c == a + (b + c)
  {
  }

  /** The first read, and what it leaves. */
  lemma FirstReadBack(front: seq<byte>, vs: seq<Value>, rest: seq<byte>, size: int) returns (q: PacketV)
    requires AllEncodable(vs) && vs != []
    ensures var p := PacketV(front, WireAll(vs) + rest, size); Readable(p, vs[0]) && Take(p, vs[0]) == (vs[0], q)
    ensures q == PacketV(front + Wire(vs[0]), WireAll(vs[1..]) + rest, size - |Wire(vs[0])| + Unsubtracted(vs[0]))
  {
    var p, w, later := PacketV(front, WireAll(vs) + rest, size), Wire(vs[0]), WireAll(vs[1..]) + rest;
    Regroup(w, WireAll(vs[1..]), rest);
    TakeWritten(p, vs[0], later);
    q := PacketV(front + w, later, size - |w| + Unsubtracted(vs[0]));
  }

  /** A message of typed values, sealed by EncodeBuffer and received: the header fields come back,
      the length field is both the payload length and the size left behind the header, all values
      come back in order, and the size left at the end is the length of the strings that the
      string reads fail to subtract. `wire` is what Compose yields, wire + junk any buffer
      the message was received into. */
  lemma MessageRoundTrip(vs: seq<Value>, id: uint32, command: byte, ack: byte, wire: seq<byte>, junk: seq<byte>)
    requires AllEncodable(vs) && |WireAll(vs)| + HEADER <= BUFFER_SIZE
    requires wire == HeaderBytes(Header(PROTOCOL_FLAG, PROTOCOL_VERSION, id, command, ack, |WireAll(vs)|)) + WireAll(vs)
    ensures |wire| == HEADER + |WireAll(vs)|
    ensures var h := HeaderOf(wire + junk);
            && h == Header(PROTOCOL_FLAG, PROTOCOL_VERSION, id, command, ack, h.length)
            && h.length == |WireAll(vs)| == |wire| - HEADER
    ensures ReadsBack(PacketV(wire[..HEADER], wire[HEADER..] + junk, |wire| - HEADER),
                      vs, PacketV(wire, junk, UnsubtractedAll(vs)))
  {
    var h := Header(PROTOCOL_FLAG, PROTOCOL_VERSION, id, command, ack, |WireAll(vs)|);
    HeaderInFront(h, WireAll(vs), junk);
    assert wire[..HEADER] == HeaderBytes(h) && wire[HEADER..] == WireAll(vs) by {
      HeaderRoundTrip(h, []);
    }
    ValuesReadBack(HeaderBytes(h), vs, junk, |WireAll(vs)|);
  }

  /** The sender: a fresh message, its values written one after the other, and the header in front. */
  method Compose(vs: seq<Value>, id: uint32, command: byte, ack: byte) returns (wire: seq<byte>)
    requires AllEncodable(vs) && |WireAll(vs)| + HEADER <= BUFFER_SIZE
    ensures wire == HeaderBytes(Header(PROTOCOL_FLAG, PROTOCOL_VERSION, id, command, ack, |WireAll(vs)|)) + WireAll(vs)
  {
    var m := new NetPacket();
    m.id, m.command, m.ack := id, command, ack;
    ghost var room := m.packet.View().front;
    WriteValues(m.packet, vs);
    ghost var filled, end := m.packet.buffer[..], m.packet.pos;
    assert filled[..end] == room + WireAll(vs);
    m.EncodeBuffer();
    wire := m.packet.buffer[..m.packet.size];
    Sealed(filled, end, room, WireAll(vs), m.packet.View(), m.packet.buffer[..]);
  }

  /** The payload stays where it is when the header is put in front. */
  lemma Sealed(filled: seq<byte>, end: nat, room: seq<byte>, payload: seq<byte>, q: PacketV, b: seq<byte>)
    requires end <= |filled| && filled[..end] == room + payload && |room| == HEADER
    requires |q.front| == HEADER && q.back == filled[HEADER..] && b == q.front + q.back
    ensures |b| >= HEADER + |payload| && b[..HEADER + |payload|] == q.front + payload
  {
    assert filled[..end][HEADER..] == payload;
    assert q.back[..|payload|] == payload;
  }

  method WriteValues(packet: Packet, vs: seq<Value>)
    requires AllEncodable(vs) && packet.InBuffer() && packet.View().Room(|WireAll(vs)|)
    modifies packet, packet.buffer
    ensures packet.InBuffer() && packet.View() == Put(old(packet.View()), WireAll(vs))
  {
    var i := 0;
    ghost var goal := Put(packet.View(), WireAll(vs));
    assert vs[0..] == vs;
    while i < |vs|
      invariant 0 <= i <= |vs| && packet.InBuffer()
      invariant packet.View().Room(|WireAll(vs[i..])|) && Put(packet.View(), WireAll(vs[i..])) == goal
    {
      PutAll(packet.View(), vs[i..]);
      assert vs[i..][1..] == vs[i + 1..];
      packet.Encode(vs[i]);
      i := i + 1;
    }
    PutNothing(packet.View());
  }

  lemma PutNothing(p: PacketV)
    ensures Put(p, []) == p
  {
    assert p.front + [] == p.front;
  }

  /** The reads of the kinds of `vs`. */
  method ReadValues(packet: Packet, vs: seq<Value>, ghost last: PacketV) returns (got: seq<Value>)
    requires packet.InBuffer() && ReadsBack(packet.View(), vs, last)
    modifies packet
    ensures got == vs && packet.InBuffer() && packet.View() == last
  {
    got := [];
    var i := 0;
    assert vs[0..] == vs;
    while i < |vs|
      invariant 0 <= i <= |vs| && got == vs[..i]
      invariant packet.InBuffer() && ReadsBack(packet.View(), vs[i..], last)
    {
      var v := packet.Decode(vs[i]);
      assert vs[i..][0] == vs[i] && vs[i..][1..] == vs[i + 1..];
      got := got + [v];
      i := i + 1;
    }
  }

  /** The receiver up to the payload: the message in a buffer of its own, with its header decoded. */
  method Open(wire: seq<byte>) returns (ok: bool, m: NetPacket, ghost junk: seq<byte>)
    requires HEADER <= |wire| <= BUFFER_SIZE
    ensures ok <==> HeaderOf(wire + junk).flag == PROTOCOL_FLAG
    ensures fresh(m) && fresh(m.packet) && fresh(m.packet.buffer)
    ensures ok ==>
      && m.packet.InBuffer()
      && Header(m.flag, m.version, m.id, m.command, m.ack, m.length) == HeaderOf(wire + junk)
      && m.packet.View() == PacketV(wire[..HEADER], wire[HEADER..] + junk, |wire| - HEADER)
  {
    m := new NetPacket.Received(wire);
    ghost var b := m.packet.buffer[..];
    junk := b[|wire|..];
    Behind(b, wire, junk);
    ok := m.Decode();
    assert m.packet.buffer[..] == b;
  }

  lemma Behind(b: seq<byte>, wire: seq<byte>, junk: seq<byte>)
    requires HEADER <= |wire| <= |b| && b[..|wire|] == wire && junk == b[|wire|..]
    ensures b == wire + junk && b[..HEADER] == wire[..HEADER] && b[HEADER..] == wire[HEADER..] + junk
  {
  }

  /** Typed writes, sealed, received into a buffer, decoded, and read back: whatever the values, the
      message is accepted with its header fields and every value comes back. */
  method Exchange(vs: seq<Value>, id: uint32, command: byte, ack: byte)
    returns (ok: bool, m: NetPacket, got: seq<Value>)
    requires AllEncodable(vs) && |WireAll(vs)| + HEADER <= BUFFER_SIZE
    ensures ok && got == vs
    ensures m.id == id && m.command == command && m.ack == ack && m.length == |WireAll(vs)|
    ensures m.packet.size == UnsubtractedAll(vs)
  {
    var wire := Compose(vs, id, command, ack);
    HeaderInFront(Header(PROTOCOL_FLAG, PROTOCOL_VERSION, id, command, ack, |WireAll(vs)|), WireAll(vs), []);
    ghost var junk;
    ok, m, junk := Open(wire);
    MessageRoundTrip(vs, id, command, ack, wire, junk);
    got := ReadValues(m.packet, vs, PacketV(wire, junk, UnsubtractedAll(vs)));
  }

  lemma HeaderInFront(h: Header, payload: seq<byte>, junk: seq<byte>)
    ensures |HeaderBytes(h)| == HEADER && HeaderOf(HeaderBytes(h) + payload + junk) == h
  {
    HeaderRoundTrip(h, payload + junk);
    assert HeaderBytes(h) + payload + junk == HeaderBytes(h) + (payload + junk);
  }

  /** The size counter reaches 0 behind the last value exactly when no string of the message has
      contents. */
  lemma {:induction false} SizeReachesZero(vs: seq<Value>)
    ensures UnsubtractedAll(vs) == 0 <==> forall i :: 0 <= i < |vs| && vs[i].AString? ==> vs[i].s == []
  {
    if vs != [] {
      SizeReachesZero(vs[1..]);
      assert forall i :: 1 <= i < |vs| ==> vs[i] == vs[1..][i - 1];
    }
  }
}
