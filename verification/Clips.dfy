/** Sending an oversized device frame in clips and receiving frames out of a byte buffer
    (gsiot/src/DeviceConnection.cpp 1104-1158, 1413-1548). */
module Clips {
  import opened Frames

  const VERSION_MARK: byte := 0x65
  const SEND_MAX := 255
  const CLIP_MAX := 255 - 6
  /** MIAN_PORT_UNPkt_LEN: the bytes of a frame its length byte does not count (line 521). */
  const UNCOUNTED := 4

  /** One frame handed to the decoder of its module. */
  datatype Dispatch = Dispatch(mod: byte, data: seq<byte>)

  /** The receiving side's settings: the largest accepted length byte, and the module, if any,
      whose frames make the loop give up (GSM frames while their reception is disabled). */
  datatype Settings = Settings(maxLen: int, quitOn: int)

  /** The length of the data part, as an eight-bit subtraction. */
  function DataLen(packetLen: byte): byte {
    (packetLen + 254) % 256
  }

  /** A complete frame starts here: BC AC len 65 module, then len - 2 bytes of data, and AC. */
  predicate FrameFits(b: seq<byte>, s: Settings)
    requires |b| > 5
  {
    && b[0] == 0xBC && b[1] == 0xAC && b[2] <= s.maxLen && b[3] == 0x65
    && |b| >= 6 + (b[2] as int - 2) % 256 && b[5 + (b[2] as int - 2) % 256] == 0xAC
  }

  /** What the receive loop dispatches. After a header that does not fit, or a frame that is not
      complete, it goes on behind those five bytes. */
  function Received(b: seq<byte>, s: Settings): seq<Dispatch>
    decreases |b|
  {
    if |b| <= 5 then []
    else if !FrameFits(b, s) then Received(b[5..], s)
    else
      var n := (b[2] as int - 2) % 256;
      var d := Dispatch(b[4], b[5..5 + n]);
      if b[4] == s.quitOn then [d] else [d] + Received(b[6 + n..], s)
  }

  class DeviceConnection {
    /** The buffers written to the port so far, and the frames dispatched so far. */
    var written: seq<seq<byte>>
    var dispatched: seq<Dispatch>

    constructor ()
      ensures written == [] && dispatched == []
    {
      written, dispatched := [], [];
    }

    /** The receive loop over a buffer that holds exactly the bytes received. */
    method OnDataReceived(src: array<byte>, s: Settings)
      modifies this`dispatched
      ensures dispatched == old(dispatched) + Received(src[..], s)
    {
      var buffer: nat, size: nat := 0, src.Length;
      ghost var all := src[..];
      ghost var goal := dispatched + Received(all, s);
      assert all[0..] == all;
      while size > 5
        invariant buffer + size == src.Length
        invariant dispatched + Received(all[buffer..], s) == goal
        decreases size
      {
        ghost var p := buffer;
        var packetHead := src[buffer];
        var packetHeadCheck := src[buffer + 1];
        var packetLen := src[buffer + 2];
        var packetVer := src[buffer + 3];
        var moduleIndex := src[buffer + 4];
        buffer, size := buffer + 5, size - 5;
        if HEAD != packetHead || ACK != packetHeadCheck {
          SkipHead(all, p, s);
          continue;
        }
        if packetLen > s.maxLen || VERSION_MARK != packetVer {
          SkipHead(all, p, s);
          continue;
        }
        var dataLen := DataLen(packetLen);
        if size < dataLen as int + 1 {
          SkipHead(all, p, s);
          continue;
        }
        var packetEnd := src[buffer + dataLen];
        if ACK != packetEnd {
          SkipHead(all, p, s);
          continue;
        }
        TakeFrame(all, p, s, dispatched);
        dispatched := dispatched + [Dispatch(moduleIndex, src[buffer..buffer + dataLen])];
        if moduleIndex == s.quitOn {
          return;
        }
        buffer, size := buffer + dataLen, size - dataLen;
        buffer, size := buffer + 1, size - 1;
      }
    }

    /** SendData for a buffer that holds exactly the frame. The connection is found stopped after
        `running` buffers have been written; nothing is written from then on. */
    method SendData(sendbuf: array<byte>, running: nat) returns (count: nat)
      modifies this`written
      ensures var sent := SentUpTo(sendbuf[..], running);
              written == old(written) + sent && count == Total(sent)
    {
      if sendbuf.Length <= SEND_MAX {
        if running == 0 {
          return 0;
        }
        written := written + [sendbuf[..]];
        assert Total([sendbuf[..]]) == sendbuf.Length by {
          assert [sendbuf[..]][1..] == [];
        }
        return sendbuf.Length;
      }
      var clipbuf := new byte[1024](_ => 0);
      forall i | 0 <= i < 5 {
        clipbuf[i] := sendbuf[i];
      }
      var temp, left := 5, sendbuf.Length - 6;
      var end := sendbuf.Length - 1;
      var clips: nat := 0;
      count := 0;
      ghost var head, data := sendbuf[..5], sendbuf[5..end];
      ghost var all := ClipList(head, data);
      assert sendbuf[temp..end] == data;
      StartOfClips(written, all);
      while temp < end
        invariant temp + left == end && 0 <= left && 5 <= temp
        invariant HeadKept(clipbuf[..], head)
        invariant clips <= running
        invariant ClipsSoFar(all, ClipList(head, sendbuf[temp..end]), clips, old(written), written, count)
        decreases end - temp
      {
        if clips == running {
          StopsHere(all, ClipList(head, sendbuf[temp..end]), clips);
          return;
        }
        var cur := if left > CLIP_MAX then CLIP_MAX else left;
        FillClip(clipbuf, sendbuf, temp, cur, head);
        NextClip(head, sendbuf[temp..end], sendbuf[temp..temp + cur], sendbuf[temp + cur..end]);
        OneMoreClip(all, ClipFrame(head, sendbuf[temp..temp + cur]), ClipList(head, sendbuf[temp + cur..end]),
                    clips, old(written), written, count);
        written := written + [clipbuf[..cur + 6]];
        count := count + (cur + 6);
        clips := clips + 1;
        temp, left := temp + cur, left - cur;
      }
      assert sendbuf[temp..end] == [];
      StopsHere(all, [], clips);
    }
  }

  /** The first n of the clips have been written, `rest` are still to come. */
  ghost predicate ClipsSoFar(all: seq<seq<byte>>, rest: seq<seq<byte>>, n: nat, was: seq<seq<byte>>,
                             written: seq<seq<byte>>, count: nat) {
    n <= |all| && rest == all[n..] && written == was + all[..n] && count == Total(all[..n])
  }

  lemma StartOfClips(was: seq<seq<byte>>, all: seq<seq<byte>>)
    ensures ClipsSoFar(all, all, 0, was, was, 0)
  {
  }

  lemma OneMoreClip(all: seq<seq<byte>>, clip: seq<byte>, later: seq<seq<byte>>, n: nat, was: seq<seq<byte>>,
                    written: seq<seq<byte>>, count: nat)
    requires ClipsSoFar(all, [clip] + later, n, was, written, count)
    ensures ClipsSoFar(all, later, n + 1, was, written + [clip], count + |clip|)
  {
    assert all[n] == all[n..][0] == clip && all[n + 1..] == all[n..][1..] == later;
    assert all[..n + 1] == all[..n] + [clip];
    TotalSnoc(all[..n], clip);
  }

  lemma {:induction false} TotalSnoc(bufs: seq<seq<byte>>, b: seq<byte>)
    ensures Total(bufs + [b]) == Total(bufs) + |b|
  {
    if bufs == [] {
      assert ([b])[1..] == [];
    } else {
      TotalSnoc(bufs[1..], b);
      assert (bufs + [b])[1..] == bufs[1..] + [b];
    }
  }

  lemma StopsHere(all: seq<seq<byte>>, rest: seq<seq<byte>>, n: nat)
    requires n <= |all| && rest == all[n..]
    ensures all[..n] == FirstOf(all, n) && (rest == [] ==> forall k: nat :: k >= n ==> FirstOf(all, k) == all[..n])
  {
  }

  ghost predicate HeadKept(buf: seq<byte>, head: seq<byte>) {
    |buf| == 1024 && |head| == 5 && buf[0] == head[0] && buf[1] == head[1] && buf[3] == head[3] && buf[4] == head[4]
  }

  /** The body of the splitting loop: the next part of the data between the patched head and the end byte. */
  method FillClip(clipbuf: array<byte>, sendbuf: array<byte>, temp: nat, cur: nat, ghost head: seq<byte>)
    requires clipbuf != sendbuf && HeadKept(clipbuf[..], head)
    requires temp + cur <= sendbuf.Length && cur <= CLIP_MAX
    modifies clipbuf
    ensures HeadKept(clipbuf[..], head)
    ensures clipbuf[..cur + 6] == ClipFrame(head, sendbuf[temp..temp + cur])
  {
    forall k | 5 <= k < 5 + cur {
      clipbuf[k] := sendbuf[temp + (k - 5)];
    }
    clipbuf[2] := cur + 6 - UNCOUNTED;
    clipbuf[5 + cur] := ACK;
    ghost var clip, data := clipbuf[..cur + 6], sendbuf[temp..temp + cur];
    forall k | 5 <= k < 5 + cur ensures clip[k] == data[k - 5] {
      assert clip[k] == clipbuf[k] && data[k - 5] == sendbuf[temp + (k - 5)];
    }
    IsClip(clip, head, data);
  }

  lemma IsClip(clip: seq<byte>, head: seq<byte>, data: seq<byte>)
    requires |head| == 5 && |data| <= CLIP_MAX && |clip| == |data| + 6
    requires clip[0] == head[0] && clip[1] == head[1] && clip[3] == head[3] && clip[4] == head[4]
    requires clip[2] as int == |data| + 2 && clip[5 + |data|] == ACK
    requires forall k :: 5 <= k < 5 + |data| ==> clip[k] == data[k - 5]
    ensures clip == ClipFrame(head, data)
  {
  }

  /** A complete frame starts at position p. */
  predicate FitsAt(all: seq<byte>, p: nat, s: Settings)
    requires p + 5 < |all|
  {
    && all[p] == HEAD && all[p + 1] == ACK && all[p + 2] <= s.maxLen && all[p + 3] == VERSION_MARK
    && |all| - p - 5 >= DataLen(all[p + 2]) as int + 1
    && all[p + 5 + DataLen(all[p + 2])] == ACK
  }

  /** Slices behind position p of a buffer are slices of its tail at p. */
  lemma Tails(all: seq<byte>, p: nat, n: nat)
    requires p + 6 + n <= |all|
    ensures all[p..][5..] == all[p + 5..]
    ensures all[p..][5..5 + n] == all[p + 5..p + 5 + n]
    ensures all[p..][6 + n..] == all[p + 6 + n..]
  {
  }

  lemma SkipHead(all: seq<byte>, p: nat, s: Settings)
    requires p + 5 < |all| && !FitsAt(all, p, s)
    ensures Received(all[p..], s) == Received(all[p + 5..], s)
  {
    Tails(all, p, 0);
    assert !FrameFits(all[p..], s);
  }

  lemma TakeFrame(all: seq<byte>, p: nat, s: Settings, done: seq<Dispatch>)
    requires p + 5 < |all| && FitsAt(all, p, s)
    ensures var n := DataLen(all[p + 2]);
            var d := Dispatch(all[p + 4], all[p + 5..p + 5 + n]);
            done + Received(all[p..], s) ==
              if all[p + 4] == s.quitOn then done + [d] else done + [d] + Received(all[p + 6 + n..], s)
  {
    Tails(all, p, DataLen(all[p + 2]));
    assert FrameFits(all[p..], s);
  }

  /** Complete frames with these modules and data stand in the buffer, from pos on, one behind the other. */
  ghost predicate FramesAt(b: seq<byte>, pos: nat, at: seq<nat>, ds: seq<Dispatch>)
    requires |at| == |ds|
    decreases |at|
  {
    at != [] ==>
      var a, n := at[0], |ds[0].data|;
      && pos <= a && a + n + 6 <= |b|
      && b[a] == 0xBC && b[a + 1] == 0xAC && b[a + 2] == (n + 2) % 256 && b[a + 3] == 0x65
      && b[a + 4] == ds[0].mod && b[a + 5..a + 5 + n] == ds[0].data && b[a + 5 + n] == 0xAC
      && FramesAt(b, a + n + 6, at[1..], ds[1..])
  }

  lemma FramesFrom(b: seq<byte>, pos: nat, next: nat, at: seq<nat>, ds: seq<Dispatch>)
    requires |at| == |ds| && pos <= next && FramesAt(b, next, at, ds)
    ensures FramesAt(b, pos, at, ds)
  {
  }

  /** A frame and the frames behind it. */
  lemma FrameThen(b: seq<byte>, p: nat, at: seq<nat>, ds: seq<Dispatch>, s: Settings)
    requires p + 5 < |b| && FrameFits(b[p..], s) && |at| == |ds|
    requires FramesAt(b, p + 6 + (b[p + 2] as int - 2) % 256, at, ds)
    ensures var n := (b[p + 2] as int - 2) % 256;
            FramesAt(b, p, [p] + at, [Dispatch(b[p + 4], b[p + 5..p + 5 + n])] + ds)
  {
    var n := (b[p + 2] as int - 2) % 256;
    assert ([p] + at)[1..] == at && ([Dispatch(b[p + 4], b[p + 5..p + 5 + n])] + ds)[1..] == ds;
  }

  lemma ReceivedAt(b: seq<byte>, p: nat, s: Settings)
    requires p + 5 < |b|
    ensures if !FrameFits(b[p..], s) then Received(b[p..], s) == Received(b[p + 5..], s)
            else
              var n := (b[p + 2] as int - 2) % 256;
              var d := Dispatch(b[p + 4], b[p + 5..p + 5 + n]);
              Received(b[p..], s) == if b[p + 4] == s.quitOn then [d] else [d] + Received(b[p + 6 + n..], s)
  {
    if FrameFits(b[p..], s) {
      Tails(b, p, (b[p + 2] as int - 2) % 256);
    } else {
      Tails(b, p, 0);
    }
  }

  /** Whatever the buffer holds, what is dispatched are complete frames of it, in order and without overlap. */
  lemma {:induction false} DispatchedAreFrames(b: seq<byte>, p: nat, s: Settings) returns (at: seq<nat>)
    requires p <= |b|
    ensures |at| == |Received(b[p..], s)| && FramesAt(b, p, at, Received(b[p..], s))
    decreases |b| - p, 1
  {
    at := [];
    if p + 5 < |b| {
      ReceivedAt(b, p, s);
      if !FrameFits(b[p..], s) {
        at := DispatchedAreFrames(b, p + 5, s);
        FramesFrom(b, p, p + 5, at, Received(b[p + 5..], s));
      } else {
        at := FrameBehindFrame(b, p, s);
      }
    }
  }

  lemma {:induction false} FrameBehindFrame(b: seq<byte>, p: nat, s: Settings) returns (at: seq<nat>)
    requires p + 5 < |b| && FrameFits(b[p..], s)
    ensures |at| == |Received(b[p..], s)| && FramesAt(b, p, at, Received(b[p..], s))
    decreases |b| - p, 0
  {
    ReceivedAt(b, p, s);
    var n := (b[p + 2] as int - 2) % 256;
    var d := Dispatch(b[p + 4], b[p + 5..p + 5 + n]);
    if b[p + 4] == s.quitOn {
      at := [p];
      FrameThen(b, p, [], [], s);
      assert [p] + [] == [p] && [d] + [] == [d];
    } else {
      var later := DispatchedAreFrames(b, p + 6 + n, s);
      FrameThen(b, p, later, Received(b[p + 6 + n..], s), s);
      at := [p] + later;
    }
  }

  // ---------- the splitter ----------

  /** A clip: the frame's own head with the length patched, the data, and the end byte. */
  function ClipFrame(head: seq<byte>, data: seq<byte>): seq<byte>
    requires |head| == 5 && |data| <= CLIP_MAX
  {
    [head[0], head[1], |data| + 6 - UNCOUNTED, head[3], head[4]] + data + [ACK]
  }

  function ClipList(head: seq<byte>, data: seq<byte>): seq<seq<byte>>
    requires |head| == 5
    decreases |data|
  {
    if data == [] then []
    else if |data| > CLIP_MAX then [ClipFrame(head, data[..CLIP_MAX])] + ClipList(head, data[CLIP_MAX..])
    else [ClipFrame(head, data)]
  }

  /** What SendData writes for a frame. */
  function Sent(frame: seq<byte>): seq<seq<byte>> {
    if |frame| <= SEND_MAX then [frame] else ClipList(frame[..5], frame[5..|frame| - 1])
  }

  function Total(bufs: seq<seq<byte>>): nat {
    if bufs == [] then 0 else |bufs[0]| + Total(bufs[1..])
  }

  function FirstOf(bufs: seq<seq<byte>>, n: nat): seq<seq<byte>> {
    if n <= |bufs| then bufs[..n] else bufs
  }

  /** What SendData writes when the connection stops after n buffers. */
  function SentUpTo(frame: seq<byte>, n: nat): seq<seq<byte>> {
    FirstOf(Sent(frame), n)
  }

  /** A frame of up to 255 bytes is written whole, and no buffer that is written is longer. */
  lemma {:induction false} SentFits(frame: seq<byte>, n: nat)
    ensures |frame| <= 255 ==> SentUpTo(frame, n) == if n == 0 then [] else [frame]
    ensures forall x :: x in SentUpTo(frame, n) ==> |x| <= 255
  {
    if |frame| > SEND_MAX {
      ClipsFit(frame[..5], frame[5..|frame| - 1]);
    }
  }

  lemma {:induction false} ClipsFit(head: seq<byte>, data: seq<byte>)
    requires |head| == 5
    ensures forall x :: x in ClipList(head, data) ==> |x| <= 255
    decreases |data|
  {
    if |data| > CLIP_MAX {
      ClipsFit(head, data[CLIP_MAX..]);
    }
  }

  lemma NextClip(head: seq<byte>, rest: seq<byte>, part: seq<byte>, later: seq<byte>)
    requires |head| == 5 && rest != [] && rest == part + later
    requires |part| == if |rest| > CLIP_MAX then CLIP_MAX else |rest|
    ensures ClipList(head, rest) == [ClipFrame(head, part)] + ClipList(head, later)
  {
    if |rest| <= CLIP_MAX {
      assert later == [] && part == rest;
    } else {
      assert rest[..CLIP_MAX] == part && rest[CLIP_MAX..] == later;
    }
  }

  // ---------- splitting and receiving ----------

  function Concat(bufs: seq<seq<byte>>): seq<byte> {
    if bufs == [] then [] else bufs[0] + Concat(bufs[1..])
  }

  /** The data parts of dispatched frames, one after the other. */
  function Joined(ds: seq<Dispatch>): seq<byte> {
    if ds == [] then [] else ds[0].data + Joined(ds[1..])
  }

  /** The head of a device frame; byte 2 is the length byte. */
  ghost predicate DeviceHead(head: seq<byte>) {
    |head| == 5 && head[0] == HEAD && head[1] == ACK && head[3] == VERSION_MARK
  }

  ghost predicate GoodHead(head: seq<byte>, s: Settings) {
    DeviceHead(head) && head[4] != s.quitOn
  }

  lemma ClipLayout(head: seq<byte>, data: seq<byte>, later: seq<byte>)
    requires |head| == 5 && |data| <= CLIP_MAX
    ensures var b := ClipFrame(head, data) + later;
            && |b| == |data| + 6 + |later|
            && b[0] == head[0] && b[1] == head[1] && b[2] as int == |data| + 2 && b[3] == head[3] && b[4] == head[4]
            && b[5..5 + |data|] == data && b[5 + |data|] == ACK && b[6 + |data|..] == later
  {
  }

  lemma ReceivedClip(head: seq<byte>, data: seq<byte>, later: seq<byte>, s: Settings)
    requires DeviceHead(head) && |data| <= CLIP_MAX && s.maxLen >= CLIP_MAX + 2
    ensures var d := Dispatch(head[4], data);
            Received(ClipFrame(head, data) + later, s) == if head[4] == s.quitOn then [d] else [d] + Received(later, s)
  {
    var b := ClipFrame(head, data) + later;
    ClipLayout(head, data, later);
    assert DataLen(b[2]) as int == |data|;
  }

  /** A first clip is dispatched first, whatever clips follow. */
  lemma FirstClip(head: seq<byte>, part: seq<byte>, later: seq<seq<byte>>, s: Settings)
    requires GoodHead(head, s) && |part| <= CLIP_MAX && s.maxLen >= CLIP_MAX + 2
    ensures var d := Dispatch(head[4], part);
            var ds := Received(Concat(later), s);
            && Received(Concat([ClipFrame(head, part)] + later), s) == [d] + ds
            && Joined([d] + ds) == part + Joined(ds)
  {
    var clips := [ClipFrame(head, part)] + later;
    assert clips[1..] == later;
    ReceivedClip(head, part, Concat(later), s);
    var ds := Received(Concat(later), s);
    assert ([Dispatch(head[4], part)] + ds)[1..] == ds;
  }

  lemma OneClip(head: seq<byte>, data: seq<byte>, s: Settings)
    requires GoodHead(head, s) && |data| <= CLIP_MAX && s.maxLen >= CLIP_MAX + 2
    ensures var d := Dispatch(head[4], data);
            Received(Concat([ClipFrame(head, data)]), s) == [d] && Joined([d]) == data
  {
    FirstClip(head, data, [], s);
    assert [ClipFrame(head, data)] + [] == [ClipFrame(head, data)];
    assert [Dispatch(head[4], data)] + [] == [Dispatch(head[4], data)];
    assert data + [] == data;
  }

  /** Receiving the clips of a split frame dispatches its own module each time, never an empty
      part or more than 249 bytes, and the parts join to the original data. */
  lemma {:induction false} ClipsArrive(head: seq<byte>, data: seq<byte>, s: Settings)
    requires GoodHead(head, s) && s.maxLen >= 251
    ensures var ds := Received(Concat(ClipList(head, data)), s);
            && Joined(ds) == data
            && |ds| == |ClipList(head, data)|
            && forall i :: 0 <= i < |ds| ==> ds[i].mod == head[4] && 0 < |ds[i].data| <= 249
    decreases |data|
  {
    if data != [] {
      var clips := ClipList(head, data);
      if |data| > CLIP_MAX {
        var part, rest := data[..CLIP_MAX], data[CLIP_MAX..];
        ClipsArrive(head, rest, s);
        FirstClip(head, part, ClipList(head, rest), s);
        assert clips == [ClipFrame(head, part)] + ClipList(head, rest);
        assert part + rest == data;
      } else {
        OneClip(head, data, s);
      }
    }
  }

  /** The clips of a switched-off module: the loop gives up behind the first. */
  lemma OnlyFirstClip(head: seq<byte>, part: seq<byte>, later: seq<seq<byte>>, s: Settings)
    requires DeviceHead(head) && head[4] == s.quitOn && |part| <= CLIP_MAX && s.maxLen >= CLIP_MAX + 2
    ensures Received(Concat([ClipFrame(head, part)] + later), s) == [Dispatch(head[4], part)]
    ensures Joined([Dispatch(head[4], part)]) == part
  {
    var clips := [ClipFrame(head, part)] + later;
    assert clips[1..] == later;
    ReceivedClip(head, part, Concat(later), s);
    assert part + [] == part;
  }

  /** A device frame that SendData writes, whole or in clips, is received as parts of at most 249
      bytes for its own module. They join to its data exactly when the module is not the one that
      makes the receive loop give up, or the frame went out whole. */
  lemma SplitAndReceive(frame: seq<byte>, s: Settings)
    requires |frame| >= 6 && DeviceHead(frame[..5]) && s.maxLen >= 251
    requires |frame| <= 255 ==> frame[2] == |frame| - 4 && frame[|frame| - 1] == ACK
    ensures var ds := Received(Concat(Sent(frame)), s);
            && (Joined(ds) == frame[5..|frame| - 1] <==> frame[4] != s.quitOn || |frame| <= 255)
            && forall i :: 0 <= i < |ds| ==>
                 ds[i].mod == frame[4] && |ds[i].data| <= 249 && (|frame| > 6 ==> ds[i].data != [])
  {
    var head, data := frame[..5], frame[5..|frame| - 1];
    if |frame| <= SEND_MAX {
      assert frame == ClipFrame(head, data);
      if frame[4] == s.quitOn {
        assert [frame] + [] == [frame];
        OnlyFirstClip(head, data, [], s);
      } else {
        OneClip(head, data, s);
      }
    } else if frame[4] == s.quitOn {
      OnlyFirstClip(head, data[..CLIP_MAX], ClipList(head, data[CLIP_MAX..]), s);
    } else {
      ClipsArrive(head, data, s);
    }
  }

  /** The first n clips are the clips of the data they carry. */
  lemma {:induction false} FirstClips(head: seq<byte>, data: seq<byte>, n: nat)
    requires |head| == 5
    ensures FirstOf(ClipList(head, data), n)
        == ClipList(head, if n * CLIP_MAX < |data| then data[..n * CLIP_MAX] else data)
    decreases n
  {
    if n == 0 {
    } else if |data| > CLIP_MAX {
      var rest := data[CLIP_MAX..];
      FirstClips(head, rest, n - 1);
      assert ClipList(head, data)[1..] == ClipList(head, rest);
      if n * CLIP_MAX < |data| {
        var part := data[..n * CLIP_MAX];
        assert part[CLIP_MAX..] == rest[..(n - 1) * CLIP_MAX];
        if n == 1 {
          assert part == data[..CLIP_MAX];
        } else {
          assert part[..CLIP_MAX] == data[..CLIP_MAX];
        }
      }
    }
  }

  /** A split that stops after n clips delivers exactly the first 249 n bytes of the data. */
  lemma StoppedSplit(frame: seq<byte>, n: nat, s: Settings)
    requires |frame| > 255 && GoodHead(frame[..5], s) && s.maxLen >= 251
    ensures var data := frame[5..|frame| - 1];
            Joined(Received(Concat(SentUpTo(frame, n)), s)) ==
              if n * 249 < |data| then data[..n * 249] else data
  {
    var head, data := frame[..5], frame[5..|frame| - 1];
    FirstClips(head, data, n);
    ClipsArrive(head, if n * CLIP_MAX < |data| then data[..n * CLIP_MAX] else data, s);
  }
}
