/** Whole messages over the radio: the fragments a sender's ticks put on the air, the channel
    between, and what the receiver puts together. */
module RadioProtocol {
  import opened Frames
  import opened Radio

  /** All packets the ticks send for what is left of a message: the sender stops when nothing is. */
  function Packets(addr: byte, cmd: byte, index: byte, left: seq<byte>): seq<Air>
    decreases |left|
  {
    if left == [] then []
    else [ClipOf(addr, cmd, index, left)] + Packets(addr, cmd, NextIndex(index, left), RestOf(left))
  }

  /** Receiving one packet that is a fragment. */
  function ReceiveAir(r: Slot, a: Air): Slot
    requires |a.data| >= 2
  {
    Receive(r, a.data[0], a.data[1], a.data[2..])
  }

  ghost predicate Fragments(packets: seq<Air>) {
    forall i :: 0 <= i < |packets| ==> |packets[i].data| >= 2
  }

  /** An in-order channel that loses the packets whose mark is false. */
  function Through(r: Slot, packets: seq<Air>, kept: seq<bool>): Slot
    requires |kept| == |packets| && Fragments(packets)
    decreases |packets|
  {
    if packets == [] then r
    else Through(if kept[0] then ReceiveAir(r, packets[0]) else r, packets[1..], kept[1..])
  }

  /** How many fragments the rest of a message takes. */
  function Clips(n: nat): nat {
    if n == 0 then 0 else if n <= CLIP then 1 else 1 + Clips(n - CLIP)
  }

  lemma {:induction false} ClipsBound(n: nat)
    ensures n <= 1024 ==> Clips(n) <= 37
    ensures (Clips(n) - 1) * 28 < n || n == 0
    ensures n <= Clips(n) * 28
  {
    if n > CLIP {
      ClipsBound(n - CLIP);
    }
  }

  /** A full clip, and the rest of the message under the next index. */
  lemma PacketsStep(addr: byte, cmd: byte, index: byte, left: seq<byte>)
    requires |left| > CLIP && index < 200
    ensures Packets(addr, cmd, index, left) ==
            [Air(addr, RD_PACK_EXT, [index + 1, cmd] + left[..CLIP])] + Packets(addr, cmd, index + 1, left[CLIP..])
  {
  }

  /** The last fragment. */
  lemma PacketsLast(addr: byte, cmd: byte, index: byte, left: seq<byte>)
    requires 0 < |left| <= CLIP && index > 0
    ensures Packets(addr, cmd, index, left) == [Air(addr, RD_PACK_EXT, [0, cmd] + left)]
  {
    assert Packets(addr, cmd, index, []) == [];
  }

  /** The indexes of the fragments count up from the sender's counter without wrapping, index 0
      stands on the last one only, and each fits a 32-byte packet. */
  lemma {:induction false} FragmentShape(addr: byte, cmd: byte, index: byte, left: seq<byte>, i: nat)
    requires left != [] && (index > 0 || |left| > CLIP) && index + Clips(|left|) <= 200
    ensures |Packets(addr, cmd, index, left)| == Clips(|left|)
    ensures i < Clips(|left|) ==>
              var a := Packets(addr, cmd, index, left)[i];
              && a.addr == addr && a.cmd == 0x8F && 2 < |a.data| <= 30
              && a.data[0] == (if i == Clips(|left|) - 1 then 0 else index + i + 1) && a.data[1] == cmd
    decreases |left|
  {
    if |left| > CLIP {
      PacketsStep(addr, cmd, index, left);
      FragmentShape(addr, cmd, index + 1, left[CLIP..], if i > 0 then i - 1 else 0);
    } else {
      PacketsLast(addr, cmd, index, left);
    }
  }

  /** The contents of the fragments, put side by side, are the message in pieces of 28 bytes. */
  lemma {:induction false} FragmentPayload(addr: byte, cmd: byte, index: byte, left: seq<byte>, i: nat)
    requires left != [] && (index > 0 || |left| > 28) && index + Clips(|left|) <= 200
    requires i < Clips(|left|) == |Packets(addr, cmd, index, left)|
    ensures var d := Packets(addr, cmd, index, left)[i].data; |d| >= 2 && IsClip(left, i, d[2..])
    decreases |left|
  {
    if |left| > CLIP {
      PacketsStep(addr, cmd, index, left);
      if i > 0 {
        var later := Packets(addr, cmd, index + 1, left[CLIP..]);
        FragmentPayload(addr, cmd, index + 1, left[CLIP..], i - 1);
        LaterClip(left, i, later[i - 1].data[2..]);
      } else {
        assert ([index + 1, cmd] + left[..CLIP])[2..] == left[..CLIP];
      }
    } else {
      PacketsLast(addr, cmd, index, left);
      assert ([0, cmd] + left)[2..] == left == left[0..];
    }
  }

  /** x is the i-th piece of 28 bytes, or the shorter rest at the end. */
  ghost predicate IsClip(left: seq<byte>, i: nat, x: seq<byte>) {
    28 * i < |left| && x == if 28 * i + 28 < |left| then left[28 * i..28 * i + 28] else left[28 * i..]
  }

  lemma LaterClip(left: seq<byte>, i: nat, x: seq<byte>)
    requires |left| > 28 && i > 0 && IsClip(left[28..], i - 1, x)
    ensures IsClip(left, i, x)
  {
  }

  lemma AreFragments(addr: byte, cmd: byte, index: byte, left: seq<byte>)
    requires left != [] && (index > 0 || |left| > CLIP) && index + Clips(|left|) <= 200
    ensures |Packets(addr, cmd, index, left)| == Clips(|left|) && Fragments(Packets(addr, cmd, index, left))
  {
    forall i | 0 <= i < |Packets(addr, cmd, index, left)| ensures |Packets(addr, cmd, index, left)[i].data| >= 2 {
      FragmentShape(addr, cmd, index, left, i);
    }
    FragmentShape(addr, cmd, index, left, 0);
  }

  /** The payload of the last fragment. */
  function LastClip(left: seq<byte>): seq<byte> {
    if |left| <= CLIP then left else LastClip(left[CLIP..])
  }

  lemma {:induction false} LastClipIs(left: seq<byte>)
    requires left != []
    ensures 0 <= (Clips(|left|) - 1) * CLIP < |left| && LastClip(left) == left[(Clips(|left|) - 1) * CLIP..]
    decreases |left|
  {
    if |left| > CLIP {
      LastClipIs(left[CLIP..]);
      assert left[CLIP..][(Clips(|left|) - 2) * CLIP..] == left[(Clips(|left|) - 1) * CLIP..];
    }
  }

  /** What a receiver in step with the sender ends up appending: the payloads up to the first
      lost fragment, and that of the last one if it arrives. */
  function Kept(left: seq<byte>, kept: seq<bool>): seq<byte>
    requires |kept| == Clips(|left|) && left != []
    decreases |left|
  {
    if |left| <= CLIP then if kept[0] then left else []
    else if kept[0] then left[..CLIP] + Kept(left[CLIP..], kept[1..])
    else if kept[|kept| - 1] then LastClip(left) else []
  }

  /** Handing the packets on one by one. */
  lemma ThroughStep(r: Slot, a: Air, rest: seq<Air>, kept: seq<bool>)
    requires |kept| == |rest| + 1 && |a.data| >= 2 && Fragments(rest)
    ensures Fragments([a] + rest)
    ensures Through(r, [a] + rest, kept) == Through(if kept[0] then ReceiveAir(r, a) else r, rest, kept[1..])
  {
    var all := [a] + rest;
    assert all[1..] == rest;
    assert forall i :: 1 <= i < |all| ==> all[i] == rest[i - 1];
  }

  lemma Assoc(a: seq<byte>, b: seq<byte>, c: seq<byte>)
    ensures a + b + c == a + (b + c)
    ensures a + [] == a
  {
  }

  lemma ReceiveClip(r: Slot, addr: byte, idx: byte, c: byte, payload: seq<byte>)
    ensures ReceiveAir(r, Air(addr, RD_PACK_EXT, [idx, c] + payload)) == Receive(r, idx, c, payload)
  {
    assert ([idx, c] + payload)[2..] == payload;
  }

  /** Once a fragment has been lost the receiver's counter stays below every later index, so only
      the final fragment, with its index 0, is still appended. */
  lemma {:induction false} AfterGap(addr: byte, cmd: byte, index: byte, left: seq<byte>, kept: seq<bool>, r: Slot)
    returns (out: Slot)
    requires left != [] && index > 0 && index + Clips(|left|) <= 200
    requires |kept| == Clips(|left|) == |Packets(addr, cmd, index, left)| && Fragments(Packets(addr, cmd, index, left))
    requires r.Slot? && r.cmd == cmd && 0 < r.index < index && !r.done
    ensures out == Through(r, Packets(addr, cmd, index, left), kept)
    ensures out.Slot? && out.cmd == cmd && out.done == kept[|kept| - 1]
    ensures out.got == if kept[|kept| - 1] then r.got + LastClip(left) else r.got
    decreases |left|
  {
    if |left| <= CLIP {
      PacketsLast(addr, cmd, index, left);
      ReceiveClip(r, addr, 0, cmd, left);
      ThroughStep(r, Air(addr, RD_PACK_EXT, [0, cmd] + left), [], kept);
      out := if kept[0] then Receive(r, 0, cmd, left) else r;
    } else {
      PacketsStep(addr, cmd, index, left);
      ReceiveClip(r, addr, index + 1, cmd, left[..CLIP]);
      AreFragments(addr, cmd, index + 1, left[CLIP..]);
      ThroughStep(r, Air(addr, RD_PACK_EXT, [index + 1, cmd] + left[..CLIP]),
                  Packets(addr, cmd, index + 1, left[CLIP..]), kept);
      out := AfterGap(addr, cmd, index + 1, left[CLIP..], kept[1..],
                      if kept[0] then Receive(r, index + 1, cmd, left[..CLIP]) else r);
    }
  }

  /** A receiver whose counter equals the sender's, at the last fragment. */
  lemma InStepLast(addr: byte, cmd: byte, index: byte, left: seq<byte>, kept: seq<bool>, r: Slot) returns (out: Slot)
    requires 0 < |left| <= CLIP && index > 0
    requires |kept| == 1 == |Packets(addr, cmd, index, left)| && Fragments(Packets(addr, cmd, index, left))
    requires r.Slot? && r.cmd == cmd && r.index == index && !r.done
    ensures out == Through(r, Packets(addr, cmd, index, left), kept)
    ensures out.Slot? && out.cmd == cmd && out.done == kept[0] && out.got == r.got + Kept(left, kept)
  {
    PacketsLast(addr, cmd, index, left);
    ReceiveClip(r, addr, 0, cmd, left);
    ThroughStep(r, Air(addr, RD_PACK_EXT, [0, cmd] + left), [], kept);
    out := if kept[0] then Receive(r, 0, cmd, left) else r;
    Assoc(r.got, [], []);
  }

  /** One more fragment on the air. */
  lemma ThroughClip(addr: byte, cmd: byte, index: byte, left: seq<byte>, kept: seq<bool>, r: Slot) returns (r': Slot)
    requires |left| > CLIP && index + Clips(|left|) <= 200
    requires |kept| == Clips(|left|) == |Packets(addr, cmd, index, left)| && Fragments(Packets(addr, cmd, index, left))
    ensures Clips(|left[CLIP..]|) == |kept[1..]| == |Packets(addr, cmd, index + 1, left[CLIP..])|
    ensures Fragments(Packets(addr, cmd, index + 1, left[CLIP..]))
    ensures r' == if kept[0] then Receive(r, index + 1, cmd, left[..CLIP]) else r
    ensures Through(r, Packets(addr, cmd, index, left), kept)
        == Through(r', Packets(addr, cmd, index + 1, left[CLIP..]), kept[1..])
  {
    PacketsStep(addr, cmd, index, left);
    ReceiveClip(r, addr, index + 1, cmd, left[..CLIP]);
    AreFragments(addr, cmd, index + 1, left[CLIP..]);
    ThroughStep(r, Air(addr, RD_PACK_EXT, [index + 1, cmd] + left[..CLIP]),
                Packets(addr, cmd, index + 1, left[CLIP..]), kept);
    r' := if kept[0] then Receive(r, index + 1, cmd, left[..CLIP]) else r;
  }

  /** The fragment that a receiver in step is waiting for. */
  lemma FittingClip(r: Slot, index: byte, cmd: byte, clip: seq<byte>)
    requires r.Slot? && r.cmd == cmd && r.index == index && 0 < index < 200 && !r.done
    ensures Receive(r, index + 1, cmd, clip) == Slot(cmd, index + 1, false, r.got + clip)
  {
  }

  ghost predicate InStepOut(out: Slot, got: seq<byte>, cmd: byte, left: seq<byte>, kept: seq<bool>)
    requires |kept| == Clips(|left|) && left != []
  {
    out.Slot? && out.cmd == cmd && out.done == kept[|kept| - 1] && out.got == got + Kept(left, kept)
  }

  lemma InStepClip(out: Slot, got: seq<byte>, cmd: byte, left: seq<byte>, kept: seq<bool>)
    requires |left| > CLIP && |kept| == Clips(|left|)
    requires if kept[0] then InStepOut(out, got + left[..CLIP], cmd, left[CLIP..], kept[1..])
             else out.Slot? && out.cmd == cmd && out.done == kept[|kept| - 1]
                  && out.got == if out.done then got + LastClip(left) else got
    ensures InStepOut(out, got, cmd, left, kept)
  {
    if kept[0] {
      Assoc(got, left[..CLIP], Kept(left[CLIP..], kept[1..]));
    } else {
      Assoc(got, [], []);
    }
  }

  /** A receiver whose counter equals the sender's. */
  lemma {:induction false} InStep(addr: byte, cmd: byte, index: byte, left: seq<byte>, kept: seq<bool>, r: Slot)
    returns (out: Slot)
    requires left != [] && index > 0 && index + Clips(|left|) <= 200
    requires |kept| == Clips(|left|) == |Packets(addr, cmd, index, left)| && Fragments(Packets(addr, cmd, index, left))
    requires r.Slot? && r.cmd == cmd && r.index == index && !r.done
    ensures out == Through(r, Packets(addr, cmd, index, left), kept)
    ensures InStepOut(out, r.got, cmd, left, kept)
    decreases |left|
  {
    if |left| <= CLIP {
      out := InStepLast(addr, cmd, index, left, kept, r);
    } else {
      var r' := ThroughClip(addr, cmd, index, left, kept, r);
      FittingClip(r, index, cmd, left[..CLIP]);
      if kept[0] {
        out := InStep(addr, cmd, index + 1, left[CLIP..], kept[1..], r');
      } else {
        out := AfterGap(addr, cmd, index + 1, left[CLIP..], kept[1..], r');
      }
      InStepClip(out, r.got, cmd, left, kept);
    }
  }

  ghost predicate AllKept(kept: seq<bool>) {
    forall i :: 0 <= i < |kept| ==> kept[i]
  }

  lemma {:induction false} KeptIsAll(left: seq<byte>, kept: seq<bool>)
    requires |kept| == Clips(|left|) && left != []
    ensures |Kept(left, kept)| <= |left|
    ensures AllKept(kept) ==> Kept(left, kept) == left
    ensures !AllKept(kept) ==> |Kept(left, kept)| < |left|
    decreases |left|
  {
    ClipsBound(|left|);
    LastClipIs(left);
    if |left| > CLIP {
      KeptIsAll(left[CLIP..], kept[1..]);
      assert left == left[..CLIP] + left[CLIP..];
      assert AllKept(kept) <==> kept[0] && AllKept(kept[1..]) by {
        assert forall i :: 1 <= i < |kept| ==> kept[i] == kept[1..][i - 1];
      }
      LastClipIs(left[CLIP..]);
    }
  }

  /** Fragment g is the first one that is lost. */
  ghost predicate FirstGap(kept: seq<bool>, g: nat) {
    g < |kept| && !kept[g] && forall i :: 0 <= i < g ==> kept[i]
  }

  /** The bytes in front of the first lost fragment, and those of the last fragment if it arrives. */
  lemma {:induction false} KeptBefore(left: seq<byte>, kept: seq<bool>, g: nat)
    requires |kept| == Clips(|left|) && left != [] && FirstGap(kept, g)
    ensures 28 * (|kept| - 1) < |left|
    ensures Kept(left, kept) == left[..28 * g] + if kept[|kept| - 1] then left[28 * (|kept| - 1)..] else []
    decreases |left|
  {
    LastClipIs(left);
    if |left| > CLIP && g > 0 {
      assert FirstGap(kept[1..], g - 1);
      KeptBefore(left[CLIP..], kept[1..], g - 1);
      KeptJoin(left, g, |kept| - 1, kept[|kept| - 1]);
    }
  }

  ghost predicate UpToGap(message: seq<byte>, kept: seq<bool>, g: nat, got: seq<byte>) {
    && g < |kept| && 28 * (|kept| - 1) < |message|
    && got == message[..28 * g] + if kept[|kept| - 1] then message[28 * (|kept| - 1)..] else []
  }

  /** Wherever the first gap is, the bytes are those up to it and those of the last fragment if it arrives. */
  ghost predicate AllUpToGap(message: seq<byte>, kept: seq<bool>, got: seq<byte>) {
    forall g: nat :: FirstGap(kept, g) ==> UpToGap(message, kept, g, got)
  }

  lemma KeptUpToGaps(message: seq<byte>, kept: seq<bool>)
    requires |kept| == Clips(|message|) && message != []
    ensures AllUpToGap(message, kept, Kept(message, kept))
  {
    forall g: nat | FirstGap(kept, g) ensures UpToGap(message, kept, g, Kept(message, kept)) {
      KeptBefore(message, kept, g);
    }
  }

  lemma KeptJoin(left: seq<byte>, g: nat, n: nat, last: bool)
    requires |left| > 28 && 0 < g <= n && 28 * n < |left|
    ensures left[..28] + (left[28..][..28 * (g - 1)] + if last then left[28..][28 * (n - 1)..] else [])
         == left[..28 * g] + if last then left[28 * n..] else []
  {
    assert left[..28] + left[28..][..28 * (g - 1)] == left[..28 * g];
    assert left[28..][28 * (n - 1)..] == left[28 * n..];
  }

  /** A message of more than 28 bytes whose first fragment arrives, over an in-order channel that
      may lose any of the others: the reassembly is complete exactly when the last fragment
      arrives; it holds the leading fragments up to the first lost one, followed by the last; and
      it is the message exactly when nothing was lost. */
  lemma LossyDelivery(addr: byte, cmd: byte, message: seq<byte>, kept: seq<bool>, r: Slot)
    requires CLIP < |message| <= BUFFER_SIZE
    requires |kept| == Clips(|message|) && kept[0]
    ensures var packets := Packets(addr, cmd, 0, message);
            && |packets| == |kept| && Fragments(packets)
            && var out := Through(r, packets, kept);
               && out.Slot? && out.cmd == cmd
               && out.done == kept[|kept| - 1]
               && out.got == Kept(message, kept)
               && (out.got == message <==> forall i :: 0 <= i < |kept| ==> kept[i])
    ensures AllUpToGap(message, kept, Kept(message, kept))
  {
    ClipsBound(|message|);
    KeptUpToGaps(message, kept);
    AreFragments(addr, cmd, 0, message);
    var r' := ThroughClip(addr, cmd, 0, message, kept, r);
    var out := InStep(addr, cmd, 1, message[CLIP..], kept[1..], r');
    KeptIsAll(message, kept);
  }

  /** Without loss the message is rebuilt byte for byte, with its command, in a slot that is
      marked finished; a message of up to 28 bytes travels as one packet of its own command. */
  lemma LosslessRoundTrip(addr: byte, cmd: byte, message: seq<byte>, r: Slot)
    requires 0 < |message| <= BUFFER_SIZE
    ensures |message| <= 28 ==> Packets(addr, cmd, 0, message) == [Air(addr, cmd, message)]
    ensures |message| > 28 ==>
              var packets := Packets(addr, cmd, 0, message);
              && Fragments(packets)
              && var out := Through(r, packets, seq(|packets|, _ => true));
                 out.Slot? && out.cmd == cmd && out.done && out.got == message
  {
    if |message| > CLIP {
      var kept := seq(Clips(|message|), _ => true);
      LossyDelivery(addr, cmd, message, kept, r);
    } else {
      assert Packets(addr, cmd, 0, RestOf(message)) == [];
    }
  }

  // ---------- a message whose first fragment is lost ----------

  function Heard(kept: seq<bool>): nat {
    if kept == [] then 0 else (if kept[0] then 1 else 0) + Heard(kept[1..])
  }

  /** What a slot with counter j, left over from an earlier message of the same command, takes from
      the rest of a message, when i of its fragments have been sent and h of them have arrived: a
      fragment fits exactly when j of those before it were lost, the last one unless the counter
      has wrapped around to 0. */
  function StaleBytes(left: seq<byte>, kept: seq<bool>, j: byte, i: nat, h: nat): seq<byte>
    requires |kept| == Clips(|left|) && left != []
    decreases |left|
  {
    if |left| <= CLIP then if kept[0] && (j + h) % 256 != 0 then left else []
    else
      (if kept[0] && i - h == j then left[..CLIP] else [])
      + StaleBytes(left[CLIP..], kept[1..], j, i + 1, if kept[0] then h + 1 else h)
  }

  /** The last fragment arrives while the counter is not 0. */
  predicate Finishes(kept: seq<bool>, j: byte, h: nat)
    requires kept != []
  {
    kept[|kept| - 1] && (j + h + Heard(kept[..|kept| - 1])) % 256 != 0
  }

  /** What has become of a slot r with counter j + h once the rest of the message has been sent: one
      of another command is as before; one of the same command has taken the stale bytes, and is
      finished if it was or if the last fragment finished it. */
  ghost predicate StaleOut(out: Slot, r: Slot, cmd: byte, left: seq<byte>, kept: seq<bool>, j: byte, i: nat, h: nat)
    requires r.Slot? && |kept| == Clips(|left|) && left != []
  {
    && out.Slot? && out.cmd == r.cmd
    && (out.done <==> r.done || (r.cmd == cmd && Finishes(kept, j, h)))
    && out.got == if r.cmd == cmd then r.got + StaleBytes(left, kept, j, i, h) else r.got
  }

  lemma StaleLast(addr: byte, cmd: byte, index: byte, left: seq<byte>, kept: seq<bool>, r: Slot, j: byte, h: nat)
    returns (out: Slot)
    requires 0 < |left| <= CLIP && index > 0
    requires |kept| == 1 == |Packets(addr, cmd, index, left)| && Fragments(Packets(addr, cmd, index, left))
    requires r.Slot? && r.index == (j + h) % 256
    ensures out == Through(r, Packets(addr, cmd, index, left), kept)
    ensures StaleOut(out, r, cmd, left, kept, j, index, h)
  {
    PacketsLast(addr, cmd, index, left);
    ReceiveClip(r, addr, 0, cmd, left);
    ThroughStep(r, Air(addr, RD_PACK_EXT, [0, cmd] + left), [], kept);
    out := if kept[0] then Receive(r, 0, cmd, left) else r;
    assert kept[..0] == [];
    Assoc(r.got, [], []);
  }

  /** From the slot behind a middle fragment to the slot before it. */
  lemma StaleStep(out: Slot, r: Slot, r': Slot, cmd: byte, left: seq<byte>, kept: seq<bool>, j: byte, i: byte, h: nat)
    requires |left| > CLIP && |kept| == Clips(|left|) && h < i < 200
    requires r.Slot? && r.index == (j + h) % 256
    requires r' == if kept[0] then Receive(r, i + 1, cmd, left[..CLIP]) else r
    requires r'.Slot? && StaleOut(out, r', cmd, left[CLIP..], kept[1..], j, i + 1, if kept[0] then h + 1 else h)
    ensures StaleOut(out, r, cmd, left, kept, j, i, h)
  {
    StaleClip(i, cmd, left[..CLIP], r, j, h);
    FinishesLater(kept, j, h);
    StaleBytesFirst(r.got, left, kept, j, i, h);
  }

  lemma FinishesLater(kept: seq<bool>, j: byte, h: nat)
    requires |kept| > 1
    ensures Finishes(kept, j, h) <==> Finishes(kept[1..], j, if kept[0] then h + 1 else h)
  {
    assert kept[..|kept| - 1][1..] == kept[1..][..|kept| - 2];
  }

  lemma StaleBytesFirst(got: seq<byte>, left: seq<byte>, kept: seq<bool>, j: byte, i: nat, h: nat)
    requires |left| > CLIP && |kept| == Clips(|left|)
    ensures var later := StaleBytes(left[CLIP..], kept[1..], j, i + 1, if kept[0] then h + 1 else h);
            got + StaleBytes(left, kept, j, i, h) == (if kept[0] && i - h == j then got + left[..CLIP] else got) + later
  {
    var later := StaleBytes(left[CLIP..], kept[1..], j, i + 1, if kept[0] then h + 1 else h);
    Assoc(got, left[..CLIP], later);
    assert [] + later == later;
  }

  lemma {:induction false} Stale(addr: byte, cmd: byte, index: byte, left: seq<byte>, kept: seq<bool>, r: Slot,
                                 j: byte, h: nat)
    returns (out: Slot)
    requires left != [] && h < index && index + Clips(|left|) <= 200
    requires |kept| == Clips(|left|) == |Packets(addr, cmd, index, left)| && Fragments(Packets(addr, cmd, index, left))
    requires r.Slot? && r.index == (j + h) % 256
    ensures out == Through(r, Packets(addr, cmd, index, left), kept)
    ensures StaleOut(out, r, cmd, left, kept, j, index, h)
    decreases |left|
  {
    if |left| <= CLIP {
      out := StaleLast(addr, cmd, index, left, kept, r, j, h);
    } else {
      var r' := ThroughClip(addr, cmd, index, left, kept, r);
      StaleClip(index, cmd, left[..CLIP], r, j, h);
      out := Stale(addr, cmd, index + 1, left[CLIP..], kept[1..], r', j, if kept[0] then h + 1 else h);
      StaleStep(out, r, r', cmd, left, kept, j, index, h);
    }
  }

  /** A fragment in the middle that reaches a slot left over. */
  lemma StaleClip(index: byte, cmd: byte, clip: seq<byte>, r: Slot, j: byte, h: nat)
    requires r.Slot? && r.index == (j + h) % 256 && h < index < 200
    ensures Receive(r, index + 1, cmd, clip) ==
            Slot(r.cmd, (j + (h + 1)) % 256, r.done, if r.cmd == cmd && index - h == j then r.got + clip else r.got)
  {
    assert (r.index as int + 1) % 256 == (j + (h + 1)) % 256;
  }

  lemma {:induction false} EmptyStays(addr: byte, cmd: byte, index: byte, left: seq<byte>, kept: seq<bool>)
    requires left != [] && index > 0 && index + Clips(|left|) <= 200
    requires |kept| == Clips(|left|) == |Packets(addr, cmd, index, left)| && Fragments(Packets(addr, cmd, index, left))
    ensures Through(Empty, Packets(addr, cmd, index, left), kept) == Empty
    decreases |left|
  {
    if |left| <= CLIP {
      PacketsLast(addr, cmd, index, left);
      ReceiveClip(Empty, addr, 0, cmd, left);
      ThroughStep(Empty, Air(addr, RD_PACK_EXT, [0, cmd] + left), [], kept);
    } else {
      var r' := ThroughClip(addr, cmd, index, left, kept, Empty);
      EmptyStays(addr, cmd, index + 1, left[CLIP..], kept[1..]);
    }
  }

  /** What reaches the receiver is then the rest of the message, from its second fragment on. */
  lemma FirstIsLost(addr: byte, cmd: byte, message: seq<byte>, kept: seq<bool>, r: Slot)
    requires CLIP < |message| <= BUFFER_SIZE
    requires |kept| == Clips(|message|) && !kept[0]
    ensures |Packets(addr, cmd, 0, message)| == |kept| && Fragments(Packets(addr, cmd, 0, message))
    ensures var rest := Packets(addr, cmd, 1, message[CLIP..]);
            && |rest| == |kept[1..]| == Clips(|message[CLIP..]|) && Fragments(rest) && 1 + |rest| <= 200
            && Through(r, Packets(addr, cmd, 0, message), kept) == Through(r, rest, kept[1..])
  {
    ClipsBound(|message|);
    AreFragments(addr, cmd, 0, message);
    var r' := ThroughClip(addr, cmd, 0, message, kept, r);
  }

  /** When the first fragment is lost, a slot left over from an earlier message is not restarted. An
      empty receiver stays empty. A slot of another command takes nothing. A slot of the same
      command takes every middle fragment in front of which as many fragments were lost as its
      counter says, and the last one; it is then marked finished and mixes the two messages,
      exactly when the last fragment arrives and the counter has not wrapped around to 0. */
  lemma LostFirstFragment(addr: byte, cmd: byte, message: seq<byte>, kept: seq<bool>, r: Slot)
    requires CLIP < |message| <= BUFFER_SIZE
    requires |kept| == Clips(|message|) && !kept[0]
    ensures var packets := Packets(addr, cmd, 0, message);
            && |packets| == |kept| && Fragments(packets)
            && var out := Through(r, packets, kept);
               && (r.Empty? ==> out.Empty?)
               && (r.Slot? ==> StaleOut(out, r, cmd, message[CLIP..], kept[1..], r.index, 1, 0))
  {
    FirstIsLost(addr, cmd, message, kept, r);
    if r.Empty? {
      EmptyStays(addr, cmd, 1, message[CLIP..], kept[1..]);
    } else {
      var out := Stale(addr, cmd, 1, message[CLIP..], kept[1..], r, r.index, 0);
    }
  }

  /** What a mixed reassembly ends with is the last fragment of the new message. */
  lemma {:induction false} MixedEndsWithLast(left: seq<byte>, kept: seq<bool>, j: byte, i: nat, h: nat)
    requires |kept| == Clips(|left|) && left != [] && Finishes(kept, j, h)
    ensures var x, last := StaleBytes(left, kept, j, i, h), LastClip(left);
            0 < |last| <= |x| && x[|x| - |last|..] == last
    decreases |left|
  {
    if |left| <= CLIP {
      assert kept[..0] == [];
    } else {
      assert kept[..|kept| - 1][1..] == kept[1..][..|kept| - 2];
      MixedEndsWithLast(left[CLIP..], kept[1..], j, i + 1, if kept[0] then h + 1 else h);
    }
  }
}
