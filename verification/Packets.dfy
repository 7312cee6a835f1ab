/** The packet buffer with its moving cursor (gsbox/src/packet.cpp): raw and tagged values. */
module Packets {
  import opened Frames

  const DATA_INT32: byte := 1
  const DATA_STRING: byte := 2
  const DATA_BOOLEAN: byte := 3
  const DATA_BYTE: byte := 4
  const DATA_INT16: byte := 5

  type uint16 = n: int | 0 <= n < 0x1_0000
  type uint32 = n: int | 0 <= n < 0x1_0000_0000

  /** The buffer before and from the cursor (data_ptr) on, and the signed size counter. */
  datatype PacketV = PacketV(front: seq<byte>, back: seq<byte>, size: int) {
    predicate Room(n: nat) { n <= |back| }
  }

  function LE16(n: uint16): seq<byte> { [n % 256, n / 256] }

  function LE32(n: uint32): seq<byte> {
    [n % 256, n / 0x100 % 256, n / 0x1_0000 % 256, n / 0x100_0000]
  }

  function FromLE16(b: seq<byte>): uint16
    requires |b| == 2
  {
    b[0] as int + b[1] as int * 256
  }

  function FromLE32(b: seq<byte>): uint32
    requires |b| == 4
  {
    b[0] as int + b[1] as int * 0x100 + b[2] as int * 0x1_0000 + b[3] as int * 0x100_0000
  }

  lemma LittleEndian(n: uint16, m: uint32)
    ensures FromLE16(LE16(n)) == n
    ensures FromLE32(LE32(m)) == m
  {
    assert m / 0x1_0000 == m / 0x100 / 256 && m / 0x100_0000 == m / 0x1_0000 / 256;
  }

  /** Storing bytes at the cursor. */
  function Put(p: PacketV, bytes: seq<byte>): PacketV
    requires p.Room(|bytes|)
  {
    PacketV(p.front + bytes, p.back[|bytes|..], p.size + |bytes|)
  }

  /** Moving past n bytes that have been read. */
  function Advance(p: PacketV, n: nat): PacketV
    requires p.Room(n)
  {
    PacketV(p.front + p.back[..n], p.back[n..], p.size - n)
  }

  lemma PutPut(p: PacketV, a: seq<byte>, b: seq<byte>)
    requires p.Room(|a| + |b|)
    ensures Put(p, a).Room(|b|) && Put(Put(p, a), b) == Put(p, a + b)
  {
  }

  // ---------- tagged values ----------

  /** Strings are C strings: their contents hold no zero byte. */
  datatype Value = AByte(b: byte) | ABool(t: bool) | AnInt16(n: uint16) | AnInt32(m: uint32) | AString(s: seq<byte>)

  predicate Encodable(v: Value) {
    v.AString? ==> |v.s| < 0x1_0000 && 0 !in v.s
  }

  /** The bytes of a tagged value. */
  function Wire(v: Value): seq<byte>
    requires Encodable(v)
  {
    match v
    case AByte(b) => [DATA_BYTE, b]
    case ABool(t) => [DATA_BOOLEAN, if t then 1 else 0]
    case AnInt16(n) => [DATA_INT16] + LE16(n)
    case AnInt32(m) => [DATA_INT32] + LE32(m)
    case AString(s) => [DATA_STRING] + LE16(|s|) + s
  }

  /** What a failed tagged read yields. */
  function Default(v: Value): Value {
    match v
    case AByte(_) => AByte(0)
    case ABool(_) => ABool(false)
    case AnInt16(_) => AnInt16(0)
    case AnInt32(_) => AnInt32(0)
    case AString(_) => AString([])
  }

  /** The type byte of a value, and the bytes a tagged read of its kind looks at. */
  function Tag(v: Value): byte {
    match v
    case AByte(_) => DATA_BYTE
    case ABool(_) => DATA_BOOLEAN
    case AnInt16(_) => DATA_INT16
    case AnInt32(_) => DATA_INT32
    case AString(_) => DATA_STRING
  }

  function FixedPart(v: Value): nat {
    match v
    case AByte(_) => 2
    case ABool(_) => 2
    case AnInt16(_) => 3
    case AnInt32(_) => 5
    case AString(_) => 3
  }

  predicate Readable(p: PacketV, like: Value) {
    && p.Room(1)
    && (p.back[0] == Tag(like) ==>
          && p.Room(FixedPart(like))
          && (like.AString? ==> p.Room(3 + FromLE16(p.back[1..3]))))
  }

  /** The tagged read that matches the kind of `like`. A string read leaves the size counter
      short by the string's length, as the source does. */
  function Take(p: PacketV, like: Value): (Value, PacketV)
    requires Readable(p, like)
  {
    if p.back[0] != Tag(like) then (Default(like), p)
    else
      match like
      case AByte(_) => (AByte(p.back[1]), Advance(p, 2))
      case ABool(_) => (ABool(p.back[1] == 1), Advance(p, 2))
      case AnInt16(_) => (AnInt16(FromLE16(p.back[1..3])), Advance(p, 3))
      case AnInt32(_) => (AnInt32(FromLE32(p.back[1..5])), Advance(p, 5))
      case AString(_) =>
        var len := FromLE16(p.back[1..3]);
        (AString(p.back[3..3 + len]), Advance(p, 3 + len).(size := p.size - 3))
  }

  /** The layout of a tagged value: the type byte, low bytes first, and a string behind its length. */
  lemma WireLayout(v: Value)
    requires Encodable(v)
    ensures var w := Wire(v);
            match v
            case AByte(b) => w == [4, b]
            case ABool(t) => |w| == 2 && w[0] == 3 && w[1] == if t then 1 else 0
            case AnInt16(n) => |w| == 3 && w[0] == 5 && n == w[1] as int + 256 * w[2] as int
            case AnInt32(m) => |w| == 5 && w[0] == 1 &&
              m == w[1] as int + 256 * w[2] as int + 65536 * w[3] as int + 16777216 * w[4] as int
            case AString(s) => |w| == 3 + |s| && w[0] == 2 && |s| == w[1] as int + 256 * w[2] as int && w[3..] == s
  {
    match v
    case AnInt16(n) => LittleEndian(n, 0);
    case AnInt32(m) => LittleEndian(0, m);
    case AString(s) => LittleEndian(|s|, 0);
    case _ =>
  }

  /** The type byte a read asks for is not the next one. */
  predicate Mismatches(b: byte, like: Value) {
    match like
    case AByte(_) => b != 4
    case ABool(_) => b != 3
    case AnInt16(_) => b != 5
    case AnInt32(_) => b != 1
    case AString(_) => b != 2
  }

  predicate IsZero(v: Value) {
    match v
    case AByte(b) => b == 0
    case ABool(t) => !t
    case AnInt16(n) => n == 0
    case AnInt32(m) => m == 0
    case AString(s) => s == []
  }

  predicate SameKind(v: Value, w: Value) {
    v.AByte? == w.AByte? && v.ABool? == w.ABool? && v.AnInt16? == w.AnInt16? && v.AnInt32? == w.AnInt32?
  }

  /** A read of another kind yields zero, false or the empty string, and leaves the packet as it is; it reads
      nothing but the type byte. */
  lemma TakeMismatched(p: PacketV, like: Value)
    requires p.Room(1) && Mismatches(p.back[0], like)
    ensures Readable(p, like)
    ensures IsZero(Take(p, like).0) && SameKind(Take(p, like).0, like) && Take(p, like).1 == p
  {
  }

  /** The part of a value the size counter is not reduced by. */
  function Unsubtracted(v: Value): nat {
    if v.AString? then |v.s| else 0
  }

  /** A matching read of a written value returns it and moves to the byte behind it. */
  lemma TakeWritten(p: PacketV, v: Value, rest: seq<byte>)
    requires Encodable(v) && p.back == Wire(v) + rest
    ensures Readable(p, v)
    ensures Take(p, v) == (v, PacketV(p.front + Wire(v), rest, p.size - |Wire(v)| + Unsubtracted(v)))
  {
    var w, b := Wire(v), p.back;
    assert b[0] == Tag(v) && b[..|w|] == w && b[|w|..] == rest;
    match v
    case AByte(_) =>
    case ABool(_) =>
    case AnInt16(n) =>
      assert b[1..3] == LE16(n);
      LittleEndian(n, 0);
    case AnInt32(m) =>
      assert b[1..5] == LE32(m);
      LittleEndian(0, m);
    case AString(s) =>
      assert b[1..3] == LE16(|s|);
      LittleEndian(|s|, 0);
      assert b[3..3 + |s|] == s;
  }

  /** A matching read at position p of a buffer: the bytes it takes, and the value. */
  function Extent(b: seq<byte>, p: nat, like: Value): nat
    requires p + FixedPart(like) <= |b|
  {
    FixedPart(like) + if like.AString? then FromLE16(b[p + 1..p + 3]) else 0
  }

  function ValueAt(b: seq<byte>, p: nat, like: Value): Value
    requires p + FixedPart(like) <= |b| && p + Extent(b, p, like) <= |b|
  {
    match like
    case AByte(_) => AByte(b[p + 1])
    case ABool(_) => ABool(b[p + 1] == 1)
    case AnInt16(_) => AnInt16(FromLE16(b[p + 1..p + 3]))
    case AnInt32(_) => AnInt32(FromLE32(b[p + 1..p + 5]))
    case AString(_) => AString(b[p + 3..p + Extent(b, p, like)])
  }

  lemma TakeAt(b: seq<byte>, p: nat, s: int, like: Value)
    requires p <= |b| && Readable(PacketV(b[..p], b[p..], s), like) && b[p] == Tag(like)
    ensures p + FixedPart(like) <= |b| && p + Extent(b, p, like) <= |b|
    ensures var n := Extent(b, p, like);
            Take(PacketV(b[..p], b[p..], s), like)
            == (ValueAt(b, p, like), PacketV(b[..p + n], b[p + n..], s - FixedPart(like)))
  {
    if !like.AByte? && !like.ABool? {
      PastBytes(b, p, 1, if like.AnInt32? then 5 else 3);
    }
    PastBytes(b, p, FixedPart(like), Extent(b, p, like));
  }

  lemma PastBytes(b: seq<byte>, p: nat, j: nat, n: nat)
    requires j <= n && p + n <= |b|
    ensures b[p..][j..n] == b[p + j..p + n]
    ensures b[..p] + b[p..][..n] == b[..p + n] && b[p..][n..] == b[p + n..]
  {
  }

  // ---------- the buffer object ----------

  class Packet {
    const buffer: array<byte>
    var pos: nat
    var size: int

    predicate InBuffer()
      reads this
    {
      pos <= buffer.Length
    }

    function View(): PacketV
      requires InBuffer()
      reads this, buffer
    {
      PacketV(buffer[..pos], buffer[pos..], size)
    }

    constructor (capacity: nat)
      ensures pos == 0 && size == 0 && buffer.Length == capacity && fresh(buffer)
    {
      buffer := new byte[capacity](_ => 0);
      pos, size := 0, 0;
    }

    method WriteByte(x: byte)
      requires InBuffer() && View().Room(1)
      modifies this, buffer
      ensures InBuffer() && View() == Put(old(View()), [x])
      ensures pos == old(pos) + 1 && size == old(size) + 1
    {
      buffer[pos] := x;
      pos := pos + 1;
      size := size + 1;
    }

    method WriteInt16(n: uint16)
      requires InBuffer() && View().Room(2)
      modifies this, buffer
      ensures InBuffer() && View() == Put(old(View()), LE16(n))
      ensures pos == old(pos) + 2 && size == old(size) + 2
    {
      buffer[pos] := n % 256;
      buffer[pos + 1] := n / 256;
      pos := pos + 2;
      size := size + 2;
    }

    method WriteInt32(n: uint32)
      requires InBuffer() && View().Room(4)
      modifies this, buffer
      ensures InBuffer() && View() == Put(old(View()), LE32(n))
      ensures pos == old(pos) + 4 && size == old(size) + 4
    {
      buffer[pos] := n % 256;
      buffer[pos + 1] := n / 0x100 % 256;
      buffer[pos + 2] := n / 0x1_0000 % 256;
      buffer[pos + 3] := n / 0x100_0000;
      pos := pos + 4;
      size := size + 4;
    }

    method WriteBuffer(data: seq<byte>)
      requires InBuffer() && View().Room(|data|)
      modifies this, buffer
      ensures InBuffer() && View() == Put(old(View()), data)
      ensures pos == old(pos) + |data| && size == old(size) + |data|
    {
      forall i | 0 <= i < |data| {
        buffer[pos + i] := data[i];
      }
      pos := pos + |data|;
      size := size + |data|;
    }

    method EncodeByte(b: byte)
      requires InBuffer() && View().Room(|Wire(AByte(b))|)
      modifies this, buffer
      ensures InBuffer() && View() == Put(old(View()), Wire(AByte(b)))
    {
      buffer[pos] := DATA_BYTE;
      buffer[pos + 1] := b;
      pos, size := pos + 2, size + 2;
    }

    method EncodeBoolean(t: bool)
      requires InBuffer() && View().Room(|Wire(ABool(t))|)
      modifies this, buffer
      ensures InBuffer() && View() == Put(old(View()), Wire(ABool(t)))
    {
      buffer[pos] := DATA_BOOLEAN;
      buffer[pos + 1] := if t then 1 else 0;
      pos, size := pos + 2, size + 2;
    }

    method EncodeInt16(n: uint16)
      requires InBuffer() && View().Room(|Wire(AnInt16(n))|)
      modifies this, buffer
      ensures InBuffer() && View() == Put(old(View()), Wire(AnInt16(n)))
    {
      PutPut(View(), [DATA_INT16], LE16(n));
      WriteByte(DATA_INT16);
      WriteInt16(n);
    }

    method EncodeInt32(m: uint32)
      requires InBuffer() && View().Room(|Wire(AnInt32(m))|)
      modifies this, buffer
      ensures InBuffer() && View() == Put(old(View()), Wire(AnInt32(m)))
    {
      PutPut(View(), [DATA_INT32], LE32(m));
      WriteByte(DATA_INT32);
      WriteInt32(m);
    }

    method EncodeString(s: seq<byte>)
      requires InBuffer() && Encodable(AString(s)) && View().Room(|Wire(AString(s))|)
      modifies this, buffer
      ensures InBuffer() && View() == Put(old(View()), Wire(AString(s)))
    {
      PutPut(View(), [DATA_STRING], LE16(|s|));
      PutPut(View(), [DATA_STRING] + LE16(|s|), s);
      WriteByte(DATA_STRING);
      WriteInt16(|s|);
      WriteBuffer(s);
    }

    /** The tagged write for a value of any kind. */
    method Encode(v: Value)
      requires Encodable(v) && InBuffer() && View().Room(|Wire(v)|)
      modifies this, buffer
      ensures InBuffer() && View() == Put(old(View()), Wire(v))
    {
      match v
      case AByte(b) => EncodeByte(b);
      case ABool(t) => EncodeBoolean(t);
      case AnInt16(n) => EncodeInt16(n);
      case AnInt32(m) => EncodeInt32(m);
      case AString(s) => EncodeString(s);
    }

    method DecodeByte() returns (v: Value)
      requires InBuffer() && Readable(View(), AByte(0))
      modifies this
      ensures InBuffer() && (v, View()) == Take(old(View()), AByte(0))
    {
      if buffer[pos] != Tag(AByte(0)) {
        return Default(AByte(0));
      }
      Consume(AByte(0));
      v := AByte(buffer[pos + 1]);
      pos, size := pos + 2, size - 2;
    }

    method DecodeBoolean() returns (v: Value)
      requires InBuffer() && Readable(View(), ABool(false))
      modifies this
      ensures InBuffer() && (v, View()) == Take(old(View()), ABool(false))
    {
      if buffer[pos] != Tag(ABool(false)) {
        return Default(ABool(false));
      }
      Consume(ABool(false));
      v := ABool(buffer[pos + 1] == 1);
      pos, size := pos + 2, size - 2;
    }

    method DecodeInt16() returns (v: Value)
      requires InBuffer() && Readable(View(), AnInt16(0))
      modifies this
      ensures InBuffer() && (v, View()) == Take(old(View()), AnInt16(0))
    {
      if buffer[pos] != Tag(AnInt16(0)) {
        return Default(AnInt16(0));
      }
      Consume(AnInt16(0));
      v := AnInt16(FromLE16(buffer[pos + 1..pos + 3]));
      pos, size := pos + 3, size - 3;
    }

    method DecodeInt32() returns (v: Value)
      requires InBuffer() && Readable(View(), AnInt32(0))
      modifies this
      ensures InBuffer() && (v, View()) == Take(old(View()), AnInt32(0))
    {
      if buffer[pos] != Tag(AnInt32(0)) {
        return Default(AnInt32(0));
      }
      Consume(AnInt32(0));
      v := AnInt32(FromLE32(buffer[pos + 1..pos + 5]));
      pos, size := pos + 5, size - 5;
    }

    method DecodeString() returns (v: Value)
      requires InBuffer() && Readable(View(), AString([]))
      modifies this
      ensures InBuffer() && (v, View()) == Take(old(View()), AString([]))
    {
      if buffer[pos] != Tag(AString([])) {
        return Default(AString([]));
      }
      Consume(AString([]));
      var len: nat := FromLE16(buffer[pos + 1..pos + 3]);
      v := AString(buffer[pos + 3..pos + 3 + len]);
      pos, size := pos + 3 + len, size - 3;
    }

    /** The result of a matching read, in terms of the buffer. */
    lemma Consume(like: Value)
      requires InBuffer() && Readable(View(), like) && buffer[pos] == Tag(like)
      ensures pos + FixedPart(like) <= buffer.Length && pos + Extent(buffer[..], pos, like) <= buffer.Length
      ensures var n := Extent(buffer[..], pos, like);
              Take(View(), like) ==
                (ValueAt(buffer[..], pos, like), PacketV(buffer[..pos + n], buffer[pos + n..], size - FixedPart(like)))
    {
      var b := buffer[..];
      assert b[..pos] == buffer[..pos] && b[pos..] == buffer[pos..];
      TakeAt(b, pos, size, like);
      var n := Extent(b, pos, like);
      assert b[..pos + n] == buffer[..pos + n] && b[pos + n..] == buffer[pos + n..];
    }

    /** The tagged read for a value of the same kind as `like`. */
    method Decode(like: Value) returns (v: Value)
      requires InBuffer() && Readable(View(), like)
      modifies this
      ensures InBuffer() && (v, View()) == Take(old(View()), like)
      ensures like.ABool? && old(buffer[pos]) == 3 ==> v == ABool(buffer[old(pos) + 1] == 1)
      ensures Mismatches(old(buffer[pos]), like) ==> IsZero(v) && SameKind(v, like) && View() == old(View())
    {
      match like
      case AByte(_) => v := DecodeByte();
      case ABool(_) => v := DecodeBoolean();
      case AnInt16(_) => v := DecodeInt16();
      case AnInt32(_) => v := DecodeInt32();
      case AString(_) => v := DecodeString();
    }

    method ReadByte() returns (x: byte)
      requires InBuffer() && View().Room(1)
      modifies this
      ensures x == old(buffer[pos]) && InBuffer() && View() == Advance(old(View()), 1)
    {
      size := size - 1;
      x := buffer[pos];
      pos := pos + 1;
    }

    /** At most what is left of the size is read. */
    method ReadBuffer(count: nat) returns (data: seq<byte>)
      requires 0 <= size && InBuffer() && View().Room(if count > size then size else count)
      modifies this
      ensures var n := if count > old(size) then old(size) else count;
              data == old(View().back[..n]) && InBuffer() && View() == Advance(old(View()), n)
    {
      var n := count;
      if n > size {
        n := size;
      }
      data := buffer[pos..pos + n];
      assert data == View().back[..n];
      pos := pos + n;
      size := size - n;
    }

    /** ReadPacket: the unread rest is appended to another packet. */
    method ReadPacket(other: Packet)
      requires other != this && other.buffer != buffer
      requires 0 <= size && InBuffer() && View().Room(size) && other.InBuffer() && other.View().Room(size)
      modifies this, other, other.buffer
      ensures InBuffer() && View() == Advance(old(View()), old(size))
      ensures other.InBuffer() && other.View() == Put(old(other.View()), old(View().back[..size]))
    {
      assert buffer[pos..pos + size] == View().back[..size];
      other.WriteBuffer(buffer[pos..pos + size]);
      pos := pos + size;
      size := 0;
    }

    /** toHardware: the unread rest as a frame. */
    method ToHardware() returns (out: seq<byte>)
      requires 0 <= size && InBuffer() && View().Room(size)
      modifies this
      ensures out == Frame(old(View().back[..size]))
      ensures out == [0xBC, 0xAC, old(size) % 256] + old(View().back[..size]) + [0xAC]
      ensures InBuffer() && View() == Advance(old(View()), old(size))
    {
      out := [HEAD, ACK, size % 256];
      var data := ReadBuffer(size);
      out := out + data + [ACK];
    }
  }
}
