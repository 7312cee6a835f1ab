/** A message from one node to another by the methods of both: the sender's timer ticks, the frames
    they hand to the board, and the packets that the other board reports (gsbox/src/radionetwork.cpp
    502-522, 761-830, 1033-1054; gsbox/src/radiopacket.cpp 14-60). */
module RadioTransfer {
  import opened Frames
  import opened Packets
  import opened Radio
  import opened RadioProtocol

  // ---------- the sender ----------

  function BoardFrames(packets: seq<Air>): seq<seq<byte>> {
    if packets == [] then [] else [BoardFrame(packets[0])] + BoardFrames(packets[1..])
  }

  /** One tick's packet, and the packets of the ticks behind it. */
  lemma TickSends(addr: byte, cmd: byte, index: byte, left: seq<byte>, sent: seq<seq<byte>>)
    requires left != []
    ensures sent + BoardFrames(RadioProtocol.Packets(addr, cmd, index, left)) ==
            sent + [BoardFrame(ClipOf(addr, cmd, index, left))]
            + BoardFrames(RadioProtocol.Packets(addr, cmd, NextIndex(index, left), RestOf(left)))
    ensures |RadioProtocol.Packets(addr, cmd, index, left)|
        == 1 + |RadioProtocol.Packets(addr, cmd, NextIndex(index, left), RestOf(left))|
  {
    var first := ClipOf(addr, cmd, index, left);
    var later := RadioProtocol.Packets(addr, cmd, NextIndex(index, left), RestOf(left));
    assert ([first] + later)[1..] == later;
  }

  /** The ticks for a message: they hand exactly its packets to the board, and one more tick stops
      the timer. */
  method SendOut(s: Sender, cmd: byte, message: seq<byte>) returns (ticks: nat)
    requires |message| <= BUFFER_SIZE
    modifies s
    ensures s.sent == old(s.sent) + BoardFrames(RadioProtocol.Packets(s.disAddr, cmd, 0, message))
    ensures ticks == |RadioProtocol.Packets(s.disAddr, cmd, 0, message)| + 1
    ensures s.last == null && !s.running
  {
    s.Queue(cmd, message);
    ticks := 0;
    ghost var goal := s.sent + BoardFrames(RadioProtocol.Packets(s.disAddr, cmd, 0, message));
    ghost var count := |RadioProtocol.Packets(s.disAddr, cmd, 0, message)|;
    ghost var left := message;
    while s.running
      invariant s.running ==> s.last != null && fresh(s.last) && fresh(s.last.packet) && s.last.Valid() && !s.last.done
      invariant s.running ==> s.last.cmd == cmd && left == s.last.Left()
      invariant s.running ==> s.sent + BoardFrames(RadioProtocol.Packets(s.disAddr, cmd, s.last.index, left)) == goal
      invariant s.running ==> ticks + |RadioProtocol.Packets(s.disAddr, cmd, s.last.index, left)| == count
      invariant !s.running ==> s.last == null && s.sent == goal && ticks == count + 1
      decreases s.running, |left|
    {
      if left != [] {
        TickSends(s.disAddr, cmd, s.last.index, left, s.sent);
      } else {
        assert s.sent + [] == s.sent;
      }
      s.Tick();
      ticks := ticks + 1;
      left := RestOf(left);
    }
  }

  // ---------- the receiver ----------

  /** The payload of a fragment fits into the slot it may extend. */
  predicate FitsInto(r: Slot, a: Air) {
    2 <= |a.data| <= BUFFER_SIZE - 4
    && (r.Slot? ==> |r.got| + |a.data| <= BUFFER_SIZE + 2)
  }

  /** So do the payloads of all fragments that arrive. */
  predicate AllFit(r: Slot, packets: seq<Air>, kept: seq<bool>)
    requires |kept| == |packets|
    decreases |packets|
  {
    packets == []
    || (|packets[0].data| >= 2
        && (kept[0] ==> FitsInto(r, packets[0]))
        && AllFit(if kept[0] then ReceiveAir(r, packets[0]) else r, packets[1..], kept[1..]))
  }

  /** A packet is reported by the board with its signal values, decoded, and taken as a fragment. */
  method Hear(r: Receiver, a: Air, rssi: byte, lqi: byte)
    requires r.Valid() && FitsInto(r.View(), a)
    modifies r, r.last
    modifies if r.last != null then {r.last.packet, r.last.packet.buffer} else {}
    ensures r.Valid() && r.View() == ReceiveAir(old(r.View()), a)
    ensures r.last == old(r.last)
            || (r.last != null && fresh(r.last) && fresh(r.last.packet) && fresh(r.last.packet.buffer))
  {
    var pkt := new RadioPacket.Reported([a.addr, a.cmd] + a.data + [rssi, lqi]);
    var ok := pkt.Decode();
    SameInside([pkt.addr, pkt.cmd], pkt.Left(), [pkt.rssi, pkt.lqi], [a.addr, a.cmd], a.data, [rssi, lqi]);
    r.OnFragment(pkt);
  }

  lemma SameInside(h: seq<byte>, x: seq<byte>, t: seq<byte>, h': seq<byte>, y: seq<byte>, t': seq<byte>)
    requires |h| == |h'| && |t| == |t'| && h + x + t == h' + y + t'
    ensures x == y
  {
    var all := h + x + t;
    assert x == all[|h|..|all| - |t|] && y == (h' + y + t')[|h|..|all| - |t|];
  }

  /** The packets that survive the channel are heard one after the other. */
  method Deliver(r: Receiver, packets: seq<Air>, kept: seq<bool>, rssi: byte, lqi: byte)
    requires r.Valid() && |kept| == |packets| && RadioProtocol.Fragments(packets) && AllFit(r.View(), packets, kept)
    modifies r, r.last
    modifies if r.last != null then {r.last.packet, r.last.packet.buffer} else {}
    ensures r.Valid() && r.View() == Through(old(r.View()), packets, kept)
  {
    var i := 0;
    ghost var goal := Through(r.View(), packets, kept);
    assert packets[0..] == packets && kept[0..] == kept;
    while i < |packets|
      invariant 0 <= i <= |packets| && r.Valid()
      invariant r.last == old(r.last)
                || (r.last != null && fresh(r.last) && fresh(r.last.packet) && fresh(r.last.packet.buffer))
      invariant RadioProtocol.Fragments(packets[i..]) && AllFit(r.View(), packets[i..], kept[i..])
      invariant Through(r.View(), packets[i..], kept[i..]) == goal
    {
      NextPacket(packets, kept, i);
      if kept[i] {
        Hear(r, packets[i], rssi, lqi);
      }
      i := i + 1;
    }
  }

  lemma NextPacket(packets: seq<Air>, kept: seq<bool>, i: nat)
    requires i < |packets| == |kept| && RadioProtocol.Fragments(packets[i..])
    ensures packets[i..][0] == packets[i] && packets[i..][1..] == packets[i + 1..]
    ensures kept[i..][0] == kept[i] && kept[i..][1..] == kept[i + 1..]
    ensures RadioProtocol.Fragments(packets[i + 1..])
  {
    var here, later := packets[i..], packets[i + 1..];
    assert later == here[1..];
    forall k | 0 <= k < |later| ensures |later[k].data| >= 2 {
      assert later[k] == here[k + 1];
    }
  }

  // ---------- from one node to the other ----------

  /** What the other board hears of a frame. */
  function AirOf(frame: seq<byte>): Air {
    if |frame| < 8 then Air(0, 0, []) else Air(frame[5], frame[6], frame[7..|frame| - 1])
  }

  function Airs(frames: seq<seq<byte>>): (packets: seq<Air>)
    ensures |packets| == |frames| && forall i :: 0 <= i < |frames| ==> packets[i] == AirOf(frames[i])
  {
    seq(|frames|, i requires 0 <= i < |frames| => AirOf(frames[i]))
  }

  lemma {:induction false} AirsOfFrames(packets: seq<Air>)
    ensures Airs(BoardFrames(packets)) == packets
  {
    if packets != [] {
      AirsOfFrames(packets[1..]);
      var frames := BoardFrames(packets);
      assert AirOf(frames[0]) == packets[0];
      assert Airs(frames)[1..] == Airs(frames[1..]);
    }
  }

  function GotSize(r: Slot): nat {
    if r.Slot? then |r.got| else 0
  }

  /** The rest of a message fits into a slot that has room for it, whatever the channel loses. */
  lemma {:induction false} MessageFits(addr: byte, cmd: byte, index: byte, left: seq<byte>, kept: seq<bool>, r: Slot)
    requires left != [] && (index > 0 || |left| > CLIP) && index + Clips(|left|) <= 200
    requires GotSize(r) + |left| <= BUFFER_SIZE
    requires |kept| == Clips(|left|) == |RadioProtocol.Packets(addr, cmd, index, left)|
    ensures AllFit(r, RadioProtocol.Packets(addr, cmd, index, left), kept)
    decreases |left|
  {
    if |left| <= CLIP {
      PacketsLast(addr, cmd, index, left);
    } else {
      var clip, rest := left[..CLIP], left[CLIP..];
      PacketsStep(addr, cmd, index, left);
      ReceiveClip(r, addr, index + 1, cmd, clip);
      var later := RadioProtocol.Packets(addr, cmd, index + 1, rest);
      MessageFits(addr, cmd, index + 1, rest, kept[1..], if kept[0] then Receive(r, index + 1, cmd, clip) else r);
      assert ([Air(addr, RD_PACK_EXT, [index + 1, cmd] + clip)] + later)[1..] == later;
    }
  }

  /** A message of more than 28 bytes is sent by its ticks, crosses a channel that loses any fragments
      but the first, and is heard by a fresh receiver: the slot is finished exactly when the last
      fragment arrives, and holds the message exactly when nothing was lost. */
  method Transfer(s: Sender, cmd: byte, message: seq<byte>, kept: seq<bool>, rssi: byte, lqi: byte)
    returns (r: Receiver)
    requires s.sent == [] && CLIP < |message| <= BUFFER_SIZE
    requires |kept| == Clips(|message|) && kept[0]
    modifies s
    ensures s.last == null && !s.running && |s.sent| == |kept|
    ensures r.Valid() && r.View().Slot? && r.View().cmd == cmd
    ensures r.View().done == kept[|kept| - 1] && r.View().got == Kept(message, kept)
    ensures r.View().got == message <==> forall i :: 0 <= i < |kept| ==> kept[i]
    ensures AllUpToGap(message, kept, r.View().got)
  {
    var ticks := SendOut(s, cmd, message);
    ghost var packets := RadioProtocol.Packets(s.disAddr, cmd, 0, message);
    assert s.sent == BoardFrames(packets);
    AirsOfFrames(packets);
    LossyDelivery(s.disAddr, cmd, message, kept, Empty);
    ClipsBound(|message|);
    MessageFits(s.disAddr, cmd, 0, message, kept, Empty);
    r := new Receiver();
    Deliver(r, Airs(s.sent), kept, rssi, lqi);
  }
}
