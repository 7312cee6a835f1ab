/** Whole runs of the serial parser: a printed byte stream cut into chunks by the port
    (gsbox/src/hardware.cpp 37-97). */
module Chunks {
  import opened Frames

  const CACHE_MIN := 5

  /** The parser, its cache, and the payloads delivered so far. */
  datatype Port = Port(st: PState, cache: seq<byte>, out: seq<seq<byte>>)

  const IDLE := Port(Hunt, [], [])

  /** What happens to lie in memory behind the bytes being parsed. */
  datatype Tail = Tail(first: byte, second: byte)

  const ZEROS := Tail(0, 0)

  /** The chunk is parsed now; otherwise it goes to the cache. */
  predicate Processes(p: Port, chunk: seq<byte>) {
    p.st.Body? || |p.cache| + |chunk| >= CACHE_MIN
  }

  /** One event with a non-empty chunk: what the contract of SerialPort.Hardware.OnEvent says. */
  function Event(p: Port, chunk: seq<byte>, tail: Tail): Port {
    var bytes := p.cache + chunk;
    if !Processes(p, chunk) then p.(cache := bytes)
    else
      var parsed := Scan(p.st, bytes + [tail.first, tail.second], 0, |bytes|);
      Port(parsed.st, [], p.out + parsed.out)
  }

  /** The port after the first n chunks of a run, with tails[i] behind chunk i. */
  function Run(chunks: seq<seq<byte>>, tails: seq<Tail>, n: nat): Port
    requires n <= |chunks| && n <= |tails|
  {
    if n == 0 then IDLE else Event(Run(chunks, tails, n - 1), chunks[n - 1], tails[n - 1])
  }

  /** The run that finds zeros behind every chunk. */
  function RunOnZeros(chunks: seq<seq<byte>>, n: nat): Port
    requires n <= |chunks|
  {
    if n == 0 then IDLE else Event(RunOnZeros(chunks, n - 1), chunks[n - 1], ZEROS)
  }

  /** What has arrived with the first n chunks. */
  function Arrived(chunks: seq<seq<byte>>, n: nat): seq<byte>
    requires n <= |chunks|
  {
    if n == 0 then [] else Arrived(chunks, n - 1) + chunks[n - 1]
  }

  /** Chunk i, if it is parsed on arrival, does not end one or two bytes into a frame. */
  ghost predicate EndsWell(ps: seq<seq<byte>>, chunks: seq<seq<byte>>, i: nat)
    requires i < |chunks|
  {
    Processes(RunOnZeros(chunks, i), chunks[i]) ==>
      Offset(ps, |Arrived(chunks, i + 1)|) != 1 && Offset(ps, |Arrived(chunks, i + 1)|) != 2
  }

  ghost predicate CutWell(ps: seq<seq<byte>>, chunks: seq<seq<byte>>, n: nat)
    requires n <= |chunks|
  {
    forall i :: 0 <= i < n ==> EndsWell(ps, chunks, i)
  }

  // ---------- well cut streams ----------

  /** The port has parsed exactly the bytes `parsed`, cleanly, and uses its cache only between
      frames. */
  ghost predicate Synced(p: Port, parsed: seq<byte>) {
    && |p.cache| < CACHE_MIN
    && (p.cache != [] ==> p.st.Hunt?)
    && Clean(Hunt, parsed) && Parse(Hunt, parsed) == Parsed(p.st, p.out)
  }

  /** On a clean chunk an event is a step of the stream parser. */
  lemma EventParses(p: Port, chunk: seq<byte>, tail: Tail)
    requires Processes(p, chunk) && Clean(p.st, p.cache + chunk)
    ensures var parsed := Parse(p.st, p.cache + chunk);
            Event(p, chunk, tail) == Port(parsed.st, [], p.out + parsed.out)
  {
    var bytes := p.cache + chunk;
    var mem := bytes + [tail.first, tail.second];
    assert mem[0..|bytes|] == bytes;
    ScanIsParse(p.st, mem, 0, |bytes|);
  }

  lemma EventSynced(p: Port, parsed: seq<byte>, chunk: seq<byte>, tail: Tail) returns (p': Port, parsed': seq<byte>)
    requires Synced(p, parsed)
    requires Processes(p, chunk) ==> Clean(Hunt, parsed + (p.cache + chunk))
    ensures p' == Event(p, chunk, tail) == Event(p, chunk, ZEROS)
    ensures Synced(p', parsed') && parsed' + p'.cache == parsed + (p.cache + chunk)
  {
    p' := Event(p, chunk, tail);
    if Processes(p, chunk) {
      parsed' := parsed + (p.cache + chunk);
      ParseConcat(Hunt, parsed, p.cache + chunk);
      EventParses(p, chunk, tail);
      EventParses(p, chunk, ZEROS);
    } else {
      parsed' := parsed;
    }
  }

  lemma {:induction false} ArrivedPrefix(chunks: seq<seq<byte>>, n: nat, m: nat)
    requires n <= m <= |chunks|
    ensures Arrived(chunks, n) <= Arrived(chunks, m)
  {
    if n < m {
      ArrivedPrefix(chunks, n, m - 1);
    }
  }

  /** What has arrived is clean exactly when it does not end one or two bytes into a frame. */
  lemma ArrivedClean(ps: seq<seq<byte>>, chunks: seq<seq<byte>>, n: nat)
    requires AllPrintable(ps) && Arrived(chunks, |chunks|) == Stream(ps) && n <= |chunks|
    ensures var o := Offset(ps, |Arrived(chunks, n)|); Clean(Hunt, Arrived(chunks, n)) <==> o != 1 && o != 2
  {
    ArrivedPrefix(chunks, n, |chunks|);
    assert Arrived(chunks, n) == Stream(ps)[..|Arrived(chunks, n)|];
    PrefixClean(ps, |Arrived(chunks, n)|);
  }

  lemma RegroupArrived(arrived: seq<byte>, parsed: seq<byte>, cache: seq<byte>, chunk: seq<byte>)
    requires arrived == parsed + cache
    ensures arrived + chunk == parsed + (cache + chunk)
  {
  }

  /** As long as the cuts are good, the port keeps up with the stream whatever lies in memory
      behind the chunks. */
  lemma {:induction false} RunSynced(ps: seq<seq<byte>>, chunks: seq<seq<byte>>, tails: seq<Tail>, n: nat)
    returns (p: Port, parsed: seq<byte>)
    requires AllPrintable(ps) && Arrived(chunks, |chunks|) == Stream(ps)
    requires n <= |chunks| && n <= |tails| && CutWell(ps, chunks, n)
    ensures p == Run(chunks, tails, n) == RunOnZeros(chunks, n)
    ensures Synced(p, parsed) && Arrived(chunks, n) == parsed + p.cache
  {
    if n == 0 {
      p, parsed := IDLE, [];
    } else {
      var p0, parsed0 := RunSynced(ps, chunks, tails, n - 1);
      RegroupArrived(Arrived(chunks, n - 1), parsed0, p0.cache, chunks[n - 1]);
      ArrivedClean(ps, chunks, n);
      assert EndsWell(ps, chunks, n - 1);
      p, parsed := EventSynced(p0, parsed0, chunks[n - 1], tails[n - 1]);
    }
  }

  /** Cached bytes begin a frame and are too few to be all of it. */
  lemma NothingCached(ps: seq<seq<byte>>, p: Port, parsed: seq<byte>)
    requires AllPrintable(ps) && Synced(p, parsed) && parsed + p.cache == Stream(ps)
    ensures p.cache == []
  {
    assert parsed == Stream(ps)[..|parsed|];
    PrefixClean(ps, |parsed|);
  }

  /** A well cut stream is delivered completely and leaves nothing behind. */
  lemma WellCutIsDelivered(ps: seq<seq<byte>>, chunks: seq<seq<byte>>, tails: seq<Tail>)
    requires AllPrintable(ps) && |chunks| == |tails| && Arrived(chunks, |chunks|) == Stream(ps)
    requires CutWell(ps, chunks, |chunks|)
    ensures Run(chunks, tails, |chunks|) == Port(Hunt, [], ps)
  {
    var p, parsed := RunSynced(ps, chunks, tails, |chunks|);
    NothingCached(ps, p, parsed);
    assert parsed == Stream(ps);
    StreamRoundTrip(ps);
  }

  // ---------- badly cut streams ----------

  /** The stream bytes that delivered payloads, an open frame, and the cache account for. */
  function Weight(out: seq<seq<byte>>): nat {
    if out == [] then 0 else |out[0]| + 4 + Weight(out[1..])
  }

  function StateWeight(st: PState): nat {
    if st.Hunt? then 0 else 3 + |st.got|
  }

  function PortWeight(p: Port): nat {
    Weight(p.out) + StateWeight(p.st) + |p.cache|
  }

  lemma {:induction false} WeightConcat(a: seq<seq<byte>>, b: seq<seq<byte>>)
    ensures Weight(a + b) == Weight(a) + Weight(b)
    decreases |a|
  {
    if a == [] {
      assert a + b == b;
    } else {
      assert (a + b)[1..] == a[1..] + b;
      WeightConcat(a[1..], b);
    }
  }

  lemma {:induction false} StreamLength(ps: seq<seq<byte>>)
    ensures |Stream(ps)| == Weight(ps)
    decreases |ps|
  {
    if ps != [] {
      StreamLength(ps[1..]);
    }
  }

  /** The parser accounts for no more bytes than it reads, and with zeros behind the chunk for at
      least one less when the hunt for a header runs out of bytes. */
  lemma {:induction false} ScanWeight(st: PState, mem: seq<byte>, pos: nat, end: nat)
    requires pos <= end && |mem| == end + 2 && mem[end] == 0 && mem[end + 1] == 0
    ensures var r := Scan(st, mem, pos, end);
            Weight(r.out) + StateWeight(r.st) <= StateWeight(st) + end - pos - if Clean(st, mem[pos..end]) then 0 else 1
    decreases end - pos
  {
    if pos < end {
      var bytes := mem[pos..end];
      assert bytes[1..] == mem[pos + 1..end];
      if st.Hunt? {
        if mem[pos] == HEAD && mem[pos + 1] == ACK {
          if pos + 3 <= end {
            assert bytes[1] == mem[pos + 1] && bytes[2] == mem[pos + 2] && bytes[3..] == mem[pos + 3..end];
            ScanWeight(After(mem[pos + 2]), mem, pos + 3, end);
          }
        } else {
          ScanWeight(Hunt, mem, pos + 1, end);
          assert pos + 1 < end ==> bytes[1] == mem[pos + 1];
        }
      } else if |st.got| < st.size {
        ScanWeight(Body(st.size, st.got + [mem[pos]]), mem, pos + 1, end);
      } else {
        ScanWeight(Hunt, mem, pos + 1, end);
      }
    }
  }

  lemma EventWeight(p: Port, chunk: seq<byte>)
    ensures PortWeight(Event(p, chunk, ZEROS)) <=
            PortWeight(p) + |chunk| - if Processes(p, chunk) && !Clean(p.st, p.cache + chunk) then 1 else 0
  {
    if Processes(p, chunk) {
      var bytes := p.cache + chunk;
      var mem := bytes + [0, 0];
      assert mem[0..|bytes|] == bytes;
      ScanWeight(p.st, mem, 0, |bytes|);
      WeightConcat(p.out, Scan(p.st, mem, 0, |bytes|).out);
    }
  }

  /** Between two points of a run no more is accounted for than arrives. */
  lemma {:induction false} RunWeight(chunks: seq<seq<byte>>, from: nat, n: nat)
    requires from <= n <= |chunks|
    ensures PortWeight(RunOnZeros(chunks, n)) + |Arrived(chunks, from)| <=
            PortWeight(RunOnZeros(chunks, from)) + |Arrived(chunks, n)|
  {
    if from < n {
      RunWeight(chunks, from, n - 1);
      EventWeight(RunOnZeros(chunks, n - 1), chunks[n - 1]);
    }
  }

  /** The first bad cut loses a byte. */
  lemma BadCutWeight(ps: seq<seq<byte>>, chunks: seq<seq<byte>>, tails: seq<Tail>, i: nat)
    requires AllPrintable(ps) && Arrived(chunks, |chunks|) == Stream(ps) && |tails| == |chunks|
    requires i < |chunks| && CutWell(ps, chunks, i) && !EndsWell(ps, chunks, i)
    ensures PortWeight(RunOnZeros(chunks, i + 1)) < |Arrived(chunks, i + 1)|
  {
    var p, parsed := RunSynced(ps, chunks, tails, i);
    RegroupArrived(Arrived(chunks, i), parsed, p.cache, chunks[i]);
    ArrivedClean(ps, chunks, i + 1);
    ParseConcat(Hunt, parsed, p.cache + chunks[i]);
    RunWeight(chunks, 0, i);
    EventWeight(p, chunks[i]);
  }

  function Zeros(n: nat): seq<Tail> {
    seq(n, _ => ZEROS)
  }

  lemma {:induction false} ZerosRun(chunks: seq<seq<byte>>, tails: seq<Tail>, n: nat)
    requires n <= |chunks| && n <= |tails| && forall i :: 0 <= i < n ==> tails[i] == ZEROS
    ensures Run(chunks, tails, n) == RunOnZeros(chunks, n)
  {
    if n > 0 {
      ZerosRun(chunks, tails, n - 1);
    }
  }

  /** The lost byte is missing at the end. */
  lemma BadCutStaysBehind(ps: seq<seq<byte>>, chunks: seq<seq<byte>>, i: nat)
    requires AllPrintable(ps) && Arrived(chunks, |chunks|) == Stream(ps)
    requires i < |chunks| && CutWell(ps, chunks, i) && !EndsWell(ps, chunks, i)
    ensures PortWeight(RunOnZeros(chunks, |chunks|)) < |Stream(ps)|
  {
    BadCutWeight(ps, chunks, Zeros(|chunks|), i);
    RunWeight(chunks, i + 1, |chunks|);
  }

  /** After a first bad cut the payloads delivered are not the payloads printed. */
  lemma BadCutLoses(ps: seq<seq<byte>>, chunks: seq<seq<byte>>, i: nat)
    requires AllPrintable(ps) && Arrived(chunks, |chunks|) == Stream(ps)
    requires i < |chunks| && CutWell(ps, chunks, i) && !EndsWell(ps, chunks, i)
    ensures Run(chunks, Zeros(|chunks|), |chunks|).out != ps
  {
    BadCutStaysBehind(ps, chunks, i);
    StreamLength(ps);
    ZerosRun(chunks, Zeros(|chunks|), |chunks|);
  }

  lemma {:induction false} FirstBadCut(ps: seq<seq<byte>>, chunks: seq<seq<byte>>, n: nat) returns (i: nat)
    requires n <= |chunks| && !CutWell(ps, chunks, n)
    ensures i < n && CutWell(ps, chunks, i) && !EndsWell(ps, chunks, i)
    decreases n
  {
    if CutWell(ps, chunks, n - 1) {
      i := n - 1;
    } else {
      i := FirstBadCut(ps, chunks, n - 1);
    }
  }

  /** The run with this memory behind its chunks delivers exactly the printed payloads. */
  ghost predicate DeliversWith(ps: seq<seq<byte>>, chunks: seq<seq<byte>>, tails: seq<Tail>) {
    |tails| == |chunks| ==> Run(chunks, tails, |chunks|).out == ps
  }

  /** A printed stream cut into chunks is delivered as exactly its payloads, whatever lies in
      memory behind the chunks, if and only if no chunk that is parsed on arrival ends one or two
      bytes into a frame. */
  lemma DeliveredExactlyWhenCutWell(ps: seq<seq<byte>>, chunks: seq<seq<byte>>)
    requires AllPrintable(ps) && Arrived(chunks, |chunks|) == Stream(ps)
    ensures CutWell(ps, chunks, |chunks|) <==> forall tails: seq<Tail> :: DeliversWith(ps, chunks, tails)
  {
    if CutWell(ps, chunks, |chunks|) {
      forall tails: seq<Tail> ensures DeliversWith(ps, chunks, tails) {
        if |tails| == |chunks| {
          WellCutIsDelivered(ps, chunks, tails);
        }
      }
    } else {
      var i := FirstBadCut(ps, chunks, |chunks|);
      BadCutLoses(ps, chunks, i);
      assert !DeliversWith(ps, chunks, Zeros(|chunks|));
    }
  }
}
