/** Length-delimited serial frames BC AC len payload AC: the printer (gsbox/src/packet.cpp
    219-231) and what the two parsers make of memory and of byte streams. */
module Frames {

  type byte = b: int | 0 <= b < 256

  const HEAD: byte := 0xBC
  const ACK: byte := 0xAC

  /** Between frames, or inside one: its announced size and the payload bytes read so far. */
  datatype PState = Hunt | Body(size: byte, got: seq<byte>)

  ghost predicate WellFormed(st: PState) {
    st.Body? ==> 0 < st.size && |st.got| <= st.size
  }

  datatype Parsed = Parsed(st: PState, out: seq<seq<byte>>)

  function After(n: byte): PState {
    if n == 0 then Hunt else Body(n, [])
  }

  /** The parsers byte by byte, over memory of which the first `end` bytes are the chunk. A
      header test looks up to two bytes ahead, past the end of the chunk if it must. */
  function Scan(st: PState, mem: seq<byte>, pos: nat, end: nat): Parsed
    requires end + 2 <= |mem|
    decreases end - pos
  {
    if pos >= end then Parsed(st, [])
    else
      match st
      case Hunt =>
        if mem[pos] == HEAD && mem[pos + 1] == ACK
        then Scan(After(mem[pos + 2]), mem, pos + 3, end)
        else Scan(Hunt, mem, pos + 1, end)
      case Body(size, got) =>
        if |got| < size then Scan(Body(size, got + [mem[pos]]), mem, pos + 1, end)
        else
          var rest := Scan(Hunt, mem, pos + 1, end);
          if mem[pos] == ACK then rest.(out := [got] + rest.out) else rest
  }

  /** The hunt for a header never runs out of bytes. */
  predicate Clean(st: PState, bytes: seq<byte>)
    decreases |bytes|
  {
    if bytes == [] then true
    else
      match st
      case Hunt =>
        if bytes[0] != HEAD then Clean(Hunt, bytes[1..])
        else if |bytes| == 1 then false
        else if bytes[1] != ACK then Clean(Hunt, bytes[1..])
        else if |bytes| == 2 then false
        else Clean(After(bytes[2]), bytes[3..])
      case Body(size, got) =>
        if |got| < size then Clean(Body(size, got + [bytes[0]]), bytes[1..]) else Clean(Hunt, bytes[1..])
  }

  /** The parsers over a stream of bytes alone. */
  function Parse(st: PState, bytes: seq<byte>): Parsed
    requires Clean(st, bytes)
    decreases |bytes|
  {
    if bytes == [] then Parsed(st, [])
    else
      match st
      case Hunt =>
        if bytes[0] == HEAD && bytes[1] == ACK then Parse(After(bytes[2]), bytes[3..]) else Parse(Hunt, bytes[1..])
      case Body(size, got) =>
        if |got| < size then Parse(Body(size, got + [bytes[0]]), bytes[1..])
        else
          var rest := Parse(Hunt, bytes[1..]);
          if bytes[0] == ACK then rest.(out := [got] + rest.out) else rest
  }

  /** On a clean chunk the memory behind it plays no part. */
  lemma {:induction false} ScanIsParse(st: PState, mem: seq<byte>, pos: nat, end: nat)
    requires pos <= end && end + 2 <= |mem| && Clean(st, mem[pos..end])
    ensures Scan(st, mem, pos, end) == Parse(st, mem[pos..end])
    decreases end - pos
  {
    var bytes := mem[pos..end];
    if pos < end {
      assert bytes[1..] == mem[pos + 1..end];
      if st.Hunt? {
        if mem[pos] == HEAD && mem[pos + 1] == ACK {
          assert bytes[1] == mem[pos + 1] && bytes[2] == mem[pos + 2] && bytes[3..] == mem[pos + 3..end];
          ScanIsParse(After(mem[pos + 2]), mem, pos + 3, end);
        } else {
          ScanIsParse(Hunt, mem, pos + 1, end);
        }
      } else if |st.got| < st.size {
        ScanIsParse(Body(st.size, st.got + [mem[pos]]), mem, pos + 1, end);
      } else {
        ScanIsParse(Hunt, mem, pos + 1, end);
      }
    }
  }

  /** No more than two bytes behind the chunk are looked at. */
  lemma {:induction false} ScanWindow(st: PState, mem: seq<byte>, pos: nat, end: nat)
    requires end + 2 <= |mem|
    ensures Scan(st, mem, pos, end) == Scan(st, mem[..end + 2], pos, end)
    decreases end - pos
  {
    if pos < end {
      if st.Hunt? {
        if mem[pos] == HEAD && mem[pos + 1] == ACK {
          ScanWindow(After(mem[pos + 2]), mem, pos + 3, end);
        } else {
          ScanWindow(Hunt, mem, pos + 1, end);
        }
      } else if |st.got| < st.size {
        ScanWindow(Body(st.size, st.got + [mem[pos]]), mem, pos + 1, end);
      } else {
        ScanWindow(Hunt, mem, pos + 1, end);
      }
    }
  }

  /** Copying a block of payload bytes at once. */
  lemma {:induction false} ScanBlock(size: byte, got: seq<byte>, mem: seq<byte>, pos: nat, end: nat, n: nat)
    requires end + 2 <= |mem| && pos + n <= end && |got| + n <= size
    ensures Scan(Body(size, got), mem, pos, end) == Scan(Body(size, got + mem[pos..pos + n]), mem, pos + n, end)
    decreases n
  {
    if n == 0 {
      assert got + mem[pos..pos] == got;
    } else {
      ScanBlock(size, got + [mem[pos]], mem, pos + 1, end, n - 1);
      assert got + [mem[pos]] + mem[pos + 1..pos + n] == got + mem[pos..pos + n];
    }
  }

  // ---------- what the scan finds ----------

  /** While no header stands at a position, the hunt goes on behind it. */
  lemma {:induction false} ScanHunts(mem: seq<byte>, pos: nat, h: nat, end: nat)
    requires pos <= h <= end && end + 2 <= |mem|
    requires forall j :: pos <= j < h ==> mem[j] != 0xBC || mem[j + 1] != 0xAC
    ensures Scan(Hunt, mem, pos, end) == Scan(Hunt, mem, h, end)
    decreases h - pos
  {
    if pos < h {
      ScanHunts(mem, pos + 1, h, end);
    }
  }

  /** At a header the length byte says which bytes are the payload. The byte behind them decides whether they are
      delivered, and the hunt goes on behind it either way; without payload it goes on behind the header. */
  lemma ScanFrame(mem: seq<byte>, h: nat, end: nat)
    requires h < end && end + 2 <= |mem| && mem[h] == 0xBC && mem[h + 1] == 0xAC
    ensures var n := mem[h + 2] as nat;
            var q := h + 3 + n;
            var r := Scan(Hunt, mem, h, end);
            if n == 0 then r == Scan(Hunt, mem, h + 3, end)
            else if q >= end then r == Parsed(Body(n, if h + 3 <= end then mem[h + 3..end] else []), [])
            else
              var rest := Scan(Hunt, mem, q + 1, end);
              r == Parsed(rest.st, if mem[q] == 0xAC then [mem[h + 3..q]] + rest.out else rest.out)
  {
    var n := mem[h + 2] as nat;
    var q := h + 3 + n;
    if n > 0 && h + 3 <= end {
      ScanBlock(n, [], mem, h + 3, end, if q < end then n else end - (h + 3));
      assert forall b: seq<byte> :: [] + b == b;
    }
  }

  /** A complete frame BC AC len payload AC stands at position a, in front of `end`. */
  ghost predicate FrameAt(mem: seq<byte>, a: nat, end: nat, p: seq<byte>)
    requires end <= |mem|
  {
    && |p| > 0 && a + 3 + |p| < end
    && mem[a] == 0xBC && mem[a + 1] == 0xAC && mem[a + 2] == |p|
    && mem[a + 3..a + 3 + |p|] == p && mem[a + 3 + |p|] == 0xAC
  }

  /** Frames stand at these positions, from pos on, one behind the other. */
  ghost predicate FramesAt(mem: seq<byte>, pos: nat, end: nat, at: seq<nat>, out: seq<seq<byte>>)
    requires end <= |mem| && |at| == |out|
    decreases |at|
  {
    at != [] ==>
      && pos <= at[0] && FrameAt(mem, at[0], end, out[0])
      && FramesAt(mem, at[0] + 4 + |out[0]|, end, at[1..], out[1..])
  }

  lemma FramesFrom(mem: seq<byte>, pos: nat, next: nat, end: nat, at: seq<nat>, out: seq<seq<byte>>)
    requires end <= |mem| && |at| == |out| && pos <= next && FramesAt(mem, next, end, at, out)
    ensures FramesAt(mem, pos, end, at, out)
  {
  }

  /** Whatever the memory holds, what the hunt delivers are payloads of complete frames of the chunk, in order
      and without overlap. */
  lemma {:induction false} DeliveredAreFrames(mem: seq<byte>, pos: nat, end: nat) returns (at: seq<nat>)
    requires end + 2 <= |mem|
    ensures var out := Scan(Hunt, mem, pos, end).out; |at| == |out| && FramesAt(mem, pos, end, at, out)
    decreases end - pos
  {
    at := [];
    if pos < end {
      if mem[pos] == 0xBC && mem[pos + 1] == 0xAC {
        var n := mem[pos + 2] as nat;
        var q := pos + 3 + n;
        ScanFrame(mem, pos, end);
        if n == 0 {
          at := DeliveredAreFrames(mem, pos + 3, end);
          FramesFrom(mem, pos, pos + 3, end, at, Scan(Hunt, mem, pos + 3, end).out);
        } else if q < end {
          var rest := Scan(Hunt, mem, q + 1, end);
          var later := DeliveredAreFrames(mem, q + 1, end);
          if mem[q] == 0xAC {
            at := [pos] + later;
            assert ([mem[pos + 3..q]] + rest.out)[1..] == rest.out && at[1..] == later;
          } else {
            at := later;
            FramesFrom(mem, pos, q + 1, end, at, rest.out);
          }
        }
      } else {
        at := DeliveredAreFrames(mem, pos + 1, end);
        FramesFrom(mem, pos, pos + 1, end, at, Scan(Hunt, mem, pos + 1, end).out);
      }
    }
  }

  // ---------- cutting a stream ----------

  /** Parsing a stream in two pieces, the first of which is clean. */
  lemma {:induction false} ParseConcat(st: PState, a: seq<byte>, b: seq<byte>)
    requires Clean(st, a)
    ensures Clean(st, a + b) == Clean(Parse(st, a).st, b)
    ensures Clean(st, a + b) ==>
              Parse(st, a + b) == Parsed(Parse(Parse(st, a).st, b).st, Parse(st, a).out + Parse(Parse(st, a).st, b).out)
    decreases |a|
  {
    var s := a + b;
    if a == [] {
      assert s == b;
    } else {
      assert s[1..] == a[1..] + b;
      if st.Hunt? && a[0] == HEAD && a[1] == ACK {
        assert s[3..] == a[3..] + b;
        ParseConcat(After(a[2]), a[3..], b);
      } else if st.Hunt? {
        ParseConcat(Hunt, a[1..], b);
      } else if |st.got| < st.size {
        ParseConcat(Body(st.size, st.got + [a[0]]), a[1..], b);
      } else {
        ParseConcat(Hunt, a[1..], b);
      }
    }
  }

  // ---------- printing ----------

  ghost predicate Printable(p: seq<byte>) {
    1 <= |p| <= 255
  }

  /** A printed frame stands where it was put. */
  lemma FrameStands(p: seq<byte>, rest: seq<byte>)
    requires Printable(p)
    ensures FrameAt(Frame(p) + rest, 0, |p| + 4, p)
  {
    var f := Frame(p);
    assert f[3..3 + |p|] == p && f[3 + |p|] == 0xAC;
    assert (f + rest)[3..3 + |p|] == f[3..3 + |p|];
  }

  /** Packet::toHardware; the length byte keeps the low eight bits of the size. */
  function Frame(p: seq<byte>): seq<byte> {
    [HEAD, ACK, |p| % 256] + p + [ACK]
  }

  ghost predicate AllPrintable(ps: seq<seq<byte>>) {
    forall i :: 0 <= i < |ps| ==> Printable(ps[i])
  }

  function Stream(ps: seq<seq<byte>>): seq<byte> {
    if ps == [] then [] else Frame(ps[0]) + Stream(ps[1..])
  }

  /** The payload part of a frame. */
  lemma {:induction false} ParsePayload(size: byte, got: seq<byte>, rest: seq<byte>)
    requires 0 < size && |got| + |rest| <= size
    ensures Clean(Body(size, got), rest) && Parse(Body(size, got), rest) == Parsed(Body(size, got + rest), [])
    decreases |rest|
  {
    if rest == [] {
      assert got + rest == got;
    } else {
      ParsePayload(size, got + [rest[0]], rest[1..]);
      assert got + [rest[0]] + rest[1..] == got + rest;
    }
  }

  lemma ParseFrame(p: seq<byte>)
    requires Printable(p)
    ensures Clean(Hunt, Frame(p)) && Parse(Hunt, Frame(p)) == Parsed(Hunt, [p])
  {
    var f := Frame(p);
    assert f[3..] == p + [ACK];
    ParsePayload(|p|, [], p);
    assert [] + p == p;
    ParseConcat(Body(|p|, []), p, [ACK]);
    assert Parse(Body(|p|, p), [ACK]) == Parsed(Hunt, [p]) by {
      assert [ACK][1..] == [];
    }
    assert [] + [p] == [p];
  }

  /** A printed stream parses back to exactly its payloads. */
  lemma {:induction false} StreamRoundTrip(ps: seq<seq<byte>>)
    requires AllPrintable(ps)
    ensures Clean(Hunt, Stream(ps)) && Parse(Hunt, Stream(ps)) == Parsed(Hunt, ps)
  {
    if ps != [] {
      ParseFrame(ps[0]);
      StreamRoundTrip(ps[1..]);
      ParseConcat(Hunt, Frame(ps[0]), Stream(ps[1..]));
      assert [ps[0]] + ps[1..] == ps;
    }
  }

  /** How far into its frame position n of a stream lies. */
  function Offset(ps: seq<seq<byte>>, n: nat): nat {
    if ps == [] then 0
    else if n < |ps[0]| + 4 then n
    else Offset(ps[1..], n - |ps[0]| - 4)
  }

  /** A prefix of a printed stream is clean exactly when it does not end one or two bytes into a
      frame, and leaves the parser between frames exactly at a frame boundary. */
  lemma {:induction false} PrefixClean(ps: seq<seq<byte>>, n: nat)
    requires AllPrintable(ps) && n <= |Stream(ps)|
    ensures Clean(Hunt, Stream(ps)[..n]) <==> Offset(ps, n) != 1 && Offset(ps, n) != 2
    ensures Clean(Hunt, Stream(ps)[..n]) ==> (Parse(Hunt, Stream(ps)[..n]).st.Hunt? <==> Offset(ps, n) == 0)
    ensures Offset(ps, n) == 0 && n < |Stream(ps)| ==> |Stream(ps)| - n >= 5
    decreases |ps|
  {
    if ps == [] {
      assert Stream(ps)[..n] == [];
    } else {
      var f, rest := Frame(ps[0]), Stream(ps[1..]);
      var a := Stream(ps)[..n];
      if n >= |f| {
        assert a == f + rest[..n - |f|];
        ParseFrame(ps[0]);
        PrefixClean(ps[1..], n - |f|);
        ParseConcat(Hunt, f, rest[..n - |f|]);
      } else if n >= 3 {
        assert a == f[..n] && f[..n][3..] == ps[0][..n - 3];
        ParsePayload(|ps[0]|, [], ps[0][..n - 3]);
      } else {
        assert a == f[..n];
      }
    }
  }
}
