/** Sending a message over the radio in fragments of at most 28 bytes, one per timer tick, and
    putting it together again (gsbox/src/radionetwork.cpp 502-522, 761-830, 1033-1054;
    gsbox/src/radiopacket.cpp, radiopacket.h). */
module Radio {
  import opened Frames
  import opened Packets

  const RD_PACK_EXT: byte := 0x8F
  const CC1101: byte := 0x40
  const SYSTEM_MARK: byte := 0x65
  const CLIP := 28
  const BUFFER_SIZE := 1024

  /** A packet on the air: address, command and contents. */
  datatype Air = Air(addr: byte, cmd: byte, data: seq<byte>)

  /** The frame that hands such a packet to the radio board. */
  function BoardFrame(a: Air): seq<byte> {
    Frame([SYSTEM_MARK, CC1101, a.addr, a.cmd] + a.data)
  }

  lemma BoardFrameBytes(a: Air)
    requires |a.data| <= 60
    ensures BoardFrame(a) == [0xBC, 0xAC, |a.data| + 4, 0x65, 0x40, a.addr, a.cmd] + a.data + [0xAC]
  {
  }

  /** What CompareExt makes of the counter, the done flag, and whether the fragment fits. */
  function Compared(index: byte, done: bool, cmd: byte, idx: byte, c: byte): (byte, bool, bool) {
    if index > 0 && idx == 0 && c == cmd then (index, true, true)
    else
      var next := (index as int + 1) % 256;
      (next, done, idx == next && c == cmd)
  }

  class RadioPacket {
    const packet: Packet
    var addr: byte
    var cmd: byte
    var rssi: byte
    var lqi: byte
    var index: byte
    var done: bool

    /** The unread bytes lie inside the buffer. */
    ghost predicate Valid()
      reads this, packet
    {
      packet.InBuffer() && 0 <= packet.size <= packet.buffer.Length - packet.pos
    }

    ghost function Left(): seq<byte>
      requires Valid()
      reads this, packet, packet.buffer
    {
      packet.View().back[..packet.size]
    }

    constructor (capacity: nat, addr: byte, cmd: byte)
      ensures fresh(packet) && fresh(packet.buffer) && packet.buffer.Length == capacity
      ensures packet.pos == 0 && packet.size == 0 && this.addr == addr && this.cmd == cmd && index == 0 && !done
    {
      packet := new Packet(capacity);
      this.addr, this.cmd, rssi, lqi, index, done := addr, cmd, 0, 0, 0, false;
    }

    /** A packet as the board reports it, from the address byte on. */
    constructor Reported(bytes: seq<byte>)
      requires |bytes| <= BUFFER_SIZE
      ensures fresh(packet) && fresh(packet.buffer) && Valid() && Left() == bytes && packet.pos == 0
      ensures index == 0 && !done
    {
      packet := new Packet(BUFFER_SIZE);
      addr, cmd, rssi, lqi, index, done := 0, 0, 0, 0, 0, false;
      new;
      forall i | 0 <= i < |bytes| {
        packet.buffer[i] := bytes[i];
      }
      packet.size := |bytes|;
    }

    /** Decode: address and command in front, signal values behind, contents in between. */
    method Decode() returns (ok: bool)
      requires Valid() && packet.pos == 0
      modifies this, packet
      ensures Valid() && index == old(index) && done == old(done)
      ensures ok <==> old(packet.size) >= 6
      ensures ok ==> [addr, cmd] + Left() + [rssi, lqi] == old(Left())
    {
      if packet.size < 6 {
        return false;
      }
      ghost var b, n := packet.buffer[..], packet.size;
      ghost var all := Left();
      assert all == b[..n];
      addr := packet.ReadByte();
      cmd := packet.ReadByte();
      packet.pos := packet.size;
      rssi := packet.ReadByte();
      lqi := packet.ReadByte();
      packet.pos := 2;
      assert packet.View().back == b[2..] && packet.size == n - 4;
      Framed(b, n, Left());
      assert addr == b[0] && cmd == b[1] && rssi == b[n - 2] && lqi == b[n - 1];
      return true;
    }

    /** A new packet becomes a fragment: its index and the command of the message go in front. */
    method Mark(idx: byte, c: byte)
      requires packet.pos == 0 && packet.size == 0 && packet.buffer.Length >= 2
      modifies this`cmd, packet, packet.buffer
      ensures cmd == 0x8F && packet.InBuffer() && packet.size == packet.pos == 2
      ensures packet.View().front == [idx, c]
    {
      cmd := RD_PACK_EXT;
      packet.WriteByte(idx);
      packet.WriteByte(c);
    }

    /** GetIndex counts before it reads; the counter has eight bits. */
    method GetIndex() returns (i: byte)
      modifies this`index
      ensures i == index == (old(index) as int + 1) % 256
    {
      index := (index + 1) % 256;
      i := index;
    }

    /** CompareExt: does this fragment continue the reassembly? */
    method CompareExt(idx: byte, c: byte) returns (fits: bool)
      modifies this`index, this`done
      ensures (index, done, fits) == Compared(old(index), old(done), cmd, idx, c)
      ensures if old(index) > 0 && idx == 0 && c == cmd then fits && done && index == old(index)
              else
                && index == (old(index) as int + 1) % 256 && done == old(done)
                && (fits <==> idx == index && c == cmd)
    {
      if index > 0 && idx == 0 && c == cmd {
        done := true;
        return true;
      }
      index := (index + 1) % 256;
      return idx == index && c == cmd;
    }
  }

  lemma Framed(b: seq<byte>, n: nat, left: seq<byte>)
    requires 6 <= n <= |b| && left == b[2..][..n - 4]
    ensures [b[0], b[1]] + left + [b[n - 2], b[n - 1]] == b[..n]
  {
    assert left == b[2..n - 2];
  }

  // ---------- the sender ----------

  /** The packet a tick puts on the air: a full clip while more than 28 bytes are left, the rest
      under index 0 after earlier clips, or the whole message under its own command. */
  function ClipOf(addr: byte, cmd: byte, index: byte, left: seq<byte>): Air {
    if |left| > CLIP then Air(addr, RD_PACK_EXT, [(index as int + 1) % 256, cmd] + left[..CLIP])
    else if index > 0 then Air(addr, RD_PACK_EXT, [0, cmd] + left)
    else Air(addr, cmd, left)
  }

  function RestOf(left: seq<byte>): seq<byte> {
    if |left| > CLIP then left[CLIP..] else []
  }

  function NextIndex(index: byte, left: seq<byte>): byte {
    if |left| > CLIP then (index as int + 1) % 256 else index
  }

  class Sender {
    var last: RadioPacket?
    var running: bool
    const disAddr: byte
    /** The frames handed to the board so far. */
    var sent: seq<seq<byte>>

    constructor (disAddr: byte)
      ensures last == null && !running && sent == [] && this.disAddr == disAddr
    {
      this.disAddr := disAddr;
      last, running, sent := null, false, [];
    }

    /** A message is set up to go out, as sendDataToDevice and Send do for a long one. */
    method Queue(cmd: byte, message: seq<byte>)
      requires |message| <= BUFFER_SIZE
      modifies this
      ensures running && sent == old(sent)
      ensures last != null && fresh(last) && fresh(last.packet) && fresh(last.packet.buffer)
      ensures last.Valid() && last.cmd == cmd && last.index == 0 && !last.done && last.Left() == message
    {
      last := new RadioPacket(BUFFER_SIZE, 0, cmd);
      last.packet.WriteBuffer(message);
      assert last.packet.buffer[..last.packet.pos] == [] + message;
      last.packet.pos := 0;
      running := true;
    }

    /** AsyncPrecessPacketCall for a message on its way out. */
    method Tick()
      requires last != null && last.Valid() && !last.done
      modifies this`last, this`running, this`sent, last, last.packet
      ensures old(last.Left()) == [] ==> last == null && !running && sent == old(sent)
      ensures old(last.Left()) != [] ==>
                && last == old(last) && running == old(running) && last.Valid() && !last.done
                && last.Left() == RestOf(old(last.Left()))
                && last.index == NextIndex(old(last.index), old(last.Left())) && last.cmd == old(last.cmd)
                && sent == old(sent) + [BoardFrame(ClipOf(disAddr, last.cmd, old(last.index), old(last.Left())))]
    {
      var dataLength := last.packet.size;
      if dataLength > 0 {
        var rd := TakeClip(last, dataLength);
        SendRadio(rd);
      } else {
        running := false;
        last := null;
      }
    }

    /** One clip, taken off the message and packed with its index and command if it needs them. */
    method TakeClip(msg: RadioPacket, length: int) returns (rd: RadioPacket)
      requires msg.Valid() && length == msg.packet.size > 0
      modifies msg`index, msg.packet
      ensures msg.Valid() && msg.Left() == RestOf(old(msg.Left()))
      ensures msg.index == NextIndex(old(msg.index), old(msg.Left()))
      ensures fresh(rd) && fresh(rd.packet) && rd.packet.InBuffer() && rd.packet.size == rd.packet.pos <= 32
      ensures Air(rd.addr, rd.cmd, rd.packet.View().front) == ClipOf(disAddr, msg.cmd, old(msg.index), old(msg.Left()))
    {
      ghost var left := msg.Left();
      rd := new RadioPacket(32, disAddr, msg.cmd);
      var dataLength := length;
      if dataLength > CLIP {
        var i := msg.GetIndex();
        rd.Mark(i, msg.cmd);
        dataLength := CLIP;
      } else if msg.index > 0 {
        rd.Mark(0, msg.cmd);
      }
      ghost var head := rd.packet.View().front;
      ghost var back := msg.packet.View().back;
      var temp := msg.packet.ReadBuffer(dataLength);
      LeftAfterRead(back, length, dataLength);
      assert temp == left[..dataLength];
      rd.packet.WriteBuffer(temp);
      assert rd.packet.View().front == head + temp;
    }

    /** sendRadio, through a 64-byte packet. */
    method SendRadio(rd: RadioPacket)
      requires rd.packet.InBuffer() && rd.packet.size == rd.packet.pos <= 60
      modifies this`sent
      ensures sent == old(sent) + [BoardFrame(Air(rd.addr, rd.cmd, rd.packet.View().front))]
      ensures var d := rd.packet.View().front;
              sent == old(sent) + [[0xBC, 0xAC, |d| + 4, 0x65, 0x40, rd.addr, rd.cmd] + d + [0xAC]]
    {
      BoardFrameBytes(Air(rd.addr, rd.cmd, rd.packet.View().front));
      var pkt := new Packet(64);
      pkt.WriteByte(SYSTEM_MARK);
      pkt.WriteByte(CC1101);
      pkt.WriteByte(rd.addr);
      pkt.WriteByte(rd.cmd);
      ghost var head := [SYSTEM_MARK, CC1101, rd.addr, rd.cmd];
      assert pkt.View().front == head;
      if rd.packet.size > 0 {
        pkt.WriteBuffer(rd.packet.buffer[..rd.packet.size]);
      }
      assert pkt.View().front == head + rd.packet.View().front;
      var frame := Printed(pkt);
      sent := sent + [frame];
    }

    /** A packet is rewound and printed as a frame. */
    method Printed(pkt: Packet) returns (frame: seq<byte>)
      requires pkt.InBuffer() && pkt.size == pkt.pos
      modifies pkt
      ensures frame == Frame(old(pkt.View().front))
    {
      ghost var front := pkt.View().front;
      pkt.pos := 0;
      assert pkt.View().back[..pkt.size] == front;
      frame := pkt.ToHardware();
    }
  }

  lemma LeftAfterRead(back: seq<byte>, length: nat, n: nat)
    requires n <= length <= |back|
    ensures back[..length][..n] == back[..n] && back[..length][n..] == back[n..][..length - n]
  {
  }

  // ---------- the receiver ----------

  /** The reassembly slot: command, counter, done flag and the bytes put together so far. */
  datatype Slot = Empty | Slot(cmd: byte, index: byte, done: bool, got: seq<byte>)

  /** A fragment arrives: index byte, command byte, payload. */
  function Receive(r: Slot, idx: byte, c: byte, payload: seq<byte>): Slot {
    if idx == 1 then Slot(c, 1, false, payload)
    else if r.Empty? then r
    else
      var (index, done, fits) := Compared(r.index, r.done, r.cmd, idx, c);
      Slot(r.cmd, index, done, if fits then r.got + payload else r.got)
  }

  ghost predicate Apart(a: RadioPacket, b: RadioPacket) {
    a != b && a.packet != b.packet && a.packet.buffer != b.packet.buffer
  }

  class Receiver {
    var last: RadioPacket?
    /** The timer that will process a finished message. */
    var running: bool

    ghost predicate Valid()
      reads this, last, if last != null then {last.packet} else {}
    {
      last != null ==>
        last.packet.InBuffer() && last.packet.size == last.packet.pos && last.packet.buffer.Length == BUFFER_SIZE
    }

    ghost function View(): Slot
      requires Valid()
      reads this, last, if last != null then {last.packet, last.packet.buffer} else {}
    {
      if last == null then Empty else Slot(last.cmd, last.index, last.done, last.packet.View().front)
    }

    constructor ()
      ensures Valid() && View() == Empty && !running
    {
      last, running := null, false;
    }

    /** The RD_PACK_EXT branch of onRadioPacket, for a decoded packet that brings an index, a
        command and a payload which still fits the buffer. */
    method OnFragment(pkt: RadioPacket)
      requires Valid() && pkt.Valid() && 2 <= pkt.packet.size <= BUFFER_SIZE
      requires last != null ==> Apart(pkt, last) && last.packet.pos + pkt.packet.size <= BUFFER_SIZE + 2
      modifies this, last, pkt.packet
      modifies if last != null then {last.packet, last.packet.buffer} else {}
      ensures Valid()
      ensures View() == Receive(old(View()), old(pkt.Left())[0], old(pkt.Left())[1], old(pkt.Left())[2..])
      ensures running == (old(running) || (old(pkt.Left())[0] != 1 && View().Slot? && View().done))
      ensures last == old(last) || (last != null && fresh(last) && fresh(last.packet) && fresh(last.packet.buffer))
    {
      ghost var back, length := pkt.packet.View().back, pkt.packet.size;
      var idx := pkt.packet.ReadByte();
      var cmd := pkt.packet.ReadByte();
      assert pkt.packet.View().back == back[2..];
      LeftAfterRead(back, length, 2);
      assert pkt.Left() == back[..length][2..];
      if idx == 1 {
        Restart(pkt, cmd);
      } else {
        if last == null {
          return;
        }
        Extend(pkt, idx, cmd);
        if last.done {
          running := true;
        }
      }
    }

    /** A later fragment extends the slot if it fits. */
    method Extend(pkt: RadioPacket, idx: byte, cmd: byte)
      requires idx != 1 && last != null && Valid()
      requires pkt.Valid() && Apart(pkt, last) && last.packet.pos + pkt.packet.size <= BUFFER_SIZE
      modifies last, pkt.packet, last.packet, last.packet.buffer
      ensures Valid() && View() == Receive(old(View()), idx, cmd, old(pkt.Left()))
    {
      ghost var r, p, payload := View(), last.packet.View(), pkt.Left();
      var fits := last.CompareExt(idx, cmd);
      assert last.packet.View() == p && pkt.packet.View().back[..pkt.packet.size] == payload;
      if fits {
        pkt.packet.ReadPacket(last.packet);
        ghost var q := last.packet.View();
        assert q == Put(p, payload);
        assert last.packet.pos == |q.front| == |p.front| + |payload| && last.packet.size == q.size;
        assert View().got == r.got + payload;
      } else {
        assert View().got == r.got;
      }
    }

    /** The first fragment opens a new slot. */
    method Restart(pkt: RadioPacket, cmd: byte)
      requires pkt.Valid() && pkt.packet.size <= BUFFER_SIZE
      modifies this`last, pkt.packet
      ensures last != null && fresh(last) && fresh(last.packet) && fresh(last.packet.buffer)
      ensures Valid() && View() == Slot(cmd, 1, false, old(pkt.Left()))
    {
      last := new RadioPacket(BUFFER_SIZE, 0, 0);
      last.cmd := cmd;
      assert last.packet.View().front == [];
      pkt.packet.ReadPacket(last.packet);
      var i := last.GetIndex();
    }
  }
}
