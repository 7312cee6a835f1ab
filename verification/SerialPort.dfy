/** The two frame parsers as they run: Hardware::OnEvent with its cache and block copies
    (gsbox/src/hardware.cpp 37-97) and ObsoleteServer::OnDataRead (gsbox/src/obsolete.cpp
    303-327). Both are proved against the same reading of memory, Frames.Scan. */
module SerialPort {
  import opened Frames
  import opened Chunks

  const BUFFER_SIZE := 1024

  /** serial_packet: the frame being read. */
  class SerialPacket {
    var head: byte
    var ack: byte
    var dataSize: byte
    var readSize: byte
    const data: array<byte>
    var endAck: byte

    ghost predicate Valid()
      reads this
    {
      && data.Length == 260
      && readSize <= dataSize
      && (dataSize != 0 ==> ack == ACK)
    }

    ghost function St(): PState
      requires Valid()
      reads this, data
      ensures WellFormed(St())
    {
      if dataSize == 0 then Hunt else Body(dataSize, data[..readSize])
    }

    constructor ()
      ensures Valid() && St() == Hunt && fresh(data)
    {
      data := new byte[260](_ => 0);
      head, ack, dataSize, readSize, endAck := 0, 0, 0, 0, 0;
    }

    /** A block of n payload bytes is copied from the buffer. */
    method Append(buffer: array<byte>, from: nat, n: nat)
      requires Valid() && buffer != data && from + n <= buffer.Length
      requires dataSize != 0 && readSize + n <= dataSize
      modifies this`readSize, data
      ensures Valid() && readSize == old(readSize) + n
      ensures data[..readSize] == old(data[..readSize]) + buffer[from..from + n]
    {
      forall i | 0 <= i < n {
        data[readSize + i] := buffer[from + i];
      }
      readSize := readSize + n;
    }
  }

  /** Reading the memory at `pos` on, after some payloads have gone out, completes the goal. */
  ghost predicate Completes(st: PState, out: seq<seq<byte>>, mem: seq<byte>, pos: nat, end: nat, goal: Parsed)
    requires end + 2 <= |mem|
  {
    Scan(st, mem, pos, end).st == goal.st && out + Scan(st, mem, pos, end).out == goal.out
  }

  lemma SkipByte(mem: seq<byte>, pos: nat, end: nat, out: seq<seq<byte>>, goal: Parsed)
    requires end + 2 <= |mem| && pos < end && Completes(Hunt, out, mem, pos, end, goal)
    ensures if mem[pos] == HEAD && mem[pos + 1] == ACK
            then Completes(After(mem[pos + 2]), out, mem, pos + 3, end, goal)
            else Completes(Hunt, out, mem, pos + 1, end, goal)
  {
  }

  lemma CopyBlock(size: byte, got: seq<byte>, mem: seq<byte>, pos: nat, end: nat, n: nat, out: seq<seq<byte>>,
                  goal: Parsed)
    requires end + 2 <= |mem| && pos + n <= end && |got| + n <= size
    requires Completes(Body(size, got), out, mem, pos, end, goal)
    ensures Completes(Body(size, got + mem[pos..pos + n]), out, mem, pos + n, end, goal)
  {
    ScanBlock(size, got, mem, pos, end, n);
  }

  lemma EndFrame(size: byte, got: seq<byte>, mem: seq<byte>, pos: nat, end: nat, out: seq<seq<byte>>, goal: Parsed)
    requires end + 2 <= |mem| && pos < end && |got| == size
    requires Completes(Body(size, got), out, mem, pos, end, goal)
    ensures Completes(Hunt, if mem[pos] == ACK then out + [got] else out, mem, pos + 1, end, goal)
  {
    var rest := Scan(Hunt, mem, pos + 1, end);
    assert out + ([got] + rest.out) == (out + [got]) + rest.out;
  }

  /** The bytes of a buffer after a cache has been put in front of its first n. */
  lemma InFront(was: seq<byte>, cached: seq<byte>, n: nat, b: seq<byte>)
    requires |b| == |was| && |cached| + n <= |b|
    requires forall i :: 0 <= i < |cached| ==> b[i] == cached[i]
    requires forall i :: |cached| <= i < |cached| + n ==> b[i] == was[i - |cached|]
    requires forall i :: |cached| + n <= i < |b| ==> b[i] == was[i]
    ensures b == cached + was[..n] + was[|cached| + n..]
  {
  }

  class Hardware {
    const packet: SerialPacket
    const cache: array<byte>
    var cacheLength: int
    /** The payloads handed to the clients so far. */
    var delivered: seq<seq<byte>>

    ghost predicate Valid()
      reads this, packet
    {
      && packet.Valid()
      && cache.Length == 255 && cache != packet.data
      && 0 <= cacheLength < CACHE_MIN
      && (packet.dataSize != 0 ==> cacheLength == 0)
    }

    constructor ()
      ensures Valid() && packet.St() == Hunt && cacheLength == 0 && delivered == []
      ensures fresh(packet) && fresh(packet.data) && fresh(cache)
    {
      packet := new SerialPacket();
      cache := new byte[255](_ => 0);
      cacheLength := 0;
      delivered := [];
    }

    ghost function View(): Port
      requires Valid()
      reads this, packet, packet.data, cache
    {
      Port(packet.St(), cache[..cacheLength], delivered)
    }

    /** OnEvent, after the port has put `polled` bytes at the front of `buffer`. The array stands
        for the 1024-byte buffer together with the memory that follows it. */
    method OnEvent(buffer: array<byte>, polled: int)
      requires Valid() && buffer.Length >= BUFFER_SIZE + 2 && cacheLength + polled <= BUFFER_SIZE
      requires buffer != cache && buffer != packet.data
      modifies this, packet, packet.data, cache, buffer
      ensures Valid()
      ensures polled <= 0 ==> View() == old(View())
      ensures polled > 0 ==>
                var behind := old(cacheLength) + polled;
                View() == Event(old(View()), old(buffer[..polled]), Tail(old(buffer[behind]), old(buffer[behind + 1])))
    {
      var size := polled;
      if size > 0 {
        if size < 5 && packet.dataSize == 0 && cacheLength + size < 5 {
          AppendToCache(buffer, size);
          return;
        }
        ghost var bytes := cache[..cacheLength] + buffer[..polled];
        ghost var mem := bytes + buffer[cacheLength + polled..];
        if cacheLength > 0 {
          size := PrependCache(buffer, size);
        }
        assert buffer[..] == mem;
        ScanWindow(packet.St(), mem, 0, |bytes|);
        assert mem[..|bytes| + 2] == bytes + [mem[|bytes|], mem[|bytes| + 1]];
        Process(buffer, size);
      }
    }

    /** A short chunk between frames waits for more. */
    method AppendToCache(buffer: array<byte>, polled: int)
      requires Valid() && 0 < polled <= buffer.Length && cacheLength + polled < CACHE_MIN && packet.dataSize == 0
      requires buffer != cache
      modifies this`cacheLength, cache
      ensures Valid() && cacheLength == old(cacheLength) + polled
      ensures cache[..cacheLength] == old(cache[..cacheLength] + buffer[..polled])
    {
      forall i | 0 <= i < polled {
        cache[cacheLength + i] := buffer[i];
      }
      cacheLength := cacheLength + polled;
    }

    /** The cached bytes go in front of the polled ones, through a second buffer. */
    method PrependCache(buffer: array<byte>, polled: int) returns (size: int)
      requires Valid() && buffer.Length >= BUFFER_SIZE && 0 < polled && cacheLength + polled <= BUFFER_SIZE
      requires buffer != cache && buffer != packet.data
      modifies this`cacheLength, buffer
      ensures cacheLength == 0 && size == old(cacheLength) + polled
      ensures buffer[..] == old(cache[..cacheLength] + buffer[..polled] + buffer[cacheLength + polled..])
    {
      var temp := new byte[BUFFER_SIZE](_ => 0);
      ghost var was, cached := buffer[..], cache[..cacheLength];
      forall i | 0 <= i < cacheLength {
        temp[i] := cache[i];
      }
      forall i | cacheLength <= i < cacheLength + polled {
        temp[i] := buffer[i - cacheLength];
      }
      size := polled + cacheLength;
      CopyBack(buffer, temp, size);
      InFront(was, cached, polled, buffer[..]);
      cacheLength := 0;
    }

    static method CopyBack(buffer: array<byte>, temp: array<byte>, n: nat)
      requires buffer != temp && n <= temp.Length && n <= buffer.Length
      modifies buffer
      ensures forall i :: 0 <= i < n ==> buffer[i] == temp[i]
      ensures forall i :: n <= i < buffer.Length ==> buffer[i] == old(buffer[i])
    {
      forall i | 0 <= i < n {
        buffer[i] := temp[i];
      }
    }

    /** The parsing loop over the first `count` bytes of the buffer. */
    method Process(buffer: array<byte>, count: int)
      requires Valid() && cacheLength == 0 && 0 < count && count + 2 <= buffer.Length
      requires buffer != cache && buffer != packet.data
      modifies this`delivered, packet, packet.data
      ensures Valid()
      ensures var parsed := Scan(old(packet.St()), buffer[..], 0, count);
              packet.St() == parsed.st && delivered == old(delivered) + parsed.out
    {
      ghost var mem := buffer[..];
      ghost var goal := Parsed(Scan(packet.St(), mem, 0, count).st, delivered + Scan(packet.St(), mem, 0, count).out);
      var enc, size := 0, count;
      while size > 0
        invariant Valid() && buffer[..] == mem && cacheLength == 0
        invariant 0 <= enc == count - size
        invariant Completes(packet.St(), delivered, mem, enc, count, goal)
        decreases size
      {
        if packet.dataSize == 0 {
          SkipByte(mem, enc, count, delivered, goal);
          if buffer[enc] == HEAD && buffer[enc + 1] == ACK {
            packet.head := buffer[enc];
            packet.ack := buffer[enc + 1];
            packet.dataSize := buffer[enc + 2];
            enc := enc + 3;
            size := size - 3;
            assert packet.data[..packet.readSize] == [];
          } else {
            enc := enc + 1;
            size := size - 1;
          }
        } else if packet.readSize < packet.dataSize {
          var n := packet.dataSize - packet.readSize;
          if n > size {
            n := size;
          }
          CopyBlock(packet.dataSize, packet.data[..packet.readSize], mem, enc, count, n, delivered, goal);
          if packet.readSize + n < 260 {
            packet.Append(buffer, enc, n);
            enc := enc + n;
          }
          size := size - n;
        } else {
          EndFrame(packet.dataSize, packet.data[..packet.readSize], mem, enc, count, delivered, goal);
          TakeEnd(buffer[enc]);
          enc := enc + 1;
          size := size - 1;
        }
      }
    }

    /** The byte behind the payload: the frame is handed on if it is the right one, and dropped. */
    method TakeEnd(end: byte)
      requires Valid()
      modifies this`delivered, packet, packet.data
      ensures Valid() && packet.St() == Hunt
      ensures delivered == old(delivered) + if old(packet.ack) == end then [old(packet.data[..packet.readSize])] else []
    {
      packet.endAck := end;
      if packet.ack == packet.endAck {
        delivered := delivered + [packet.data[..packet.readSize]];
      }
      packet.head, packet.ack, packet.dataSize, packet.readSize, packet.endAck := 0, 0, 0, 0, 0;
      forall i | 0 <= i < packet.data.Length {
        packet.data[i] := 0;
      }
    }
  }

  class ObsoleteServer {
    /** The payloads passed on to the board so far. */
    var transformed: seq<seq<byte>>

    constructor ()
      ensures transformed == []
    {
      transformed := [];
    }

    /** OnDataRead for the client whose frame is `prve`; `data` stands for the received bytes
        together with the memory that follows them. */
    method OnDataRead(prve: SerialPacket, data: array<byte>, size: int)
      requires prve.Valid() && 0 <= size && size + 2 <= data.Length && data != prve.data
      modifies this, prve, prve.data
      ensures prve.Valid()
      ensures var parsed := Scan(old(prve.St()), data[..], 0, size);
              prve.St() == parsed.st && transformed == old(transformed) + parsed.out
    {
      ghost var mem := data[..];
      ghost var goal := Parsed(Scan(prve.St(), mem, 0, size).st, transformed + Scan(prve.St(), mem, 0, size).out);
      var index := 0;
      while index < size
        invariant prve.Valid() && data[..] == mem && 0 <= index
        invariant Completes(prve.St(), transformed, mem, index, size, goal)
        decreases size - index
      {
        if prve.dataSize == 0 {
          SkipByte(mem, index, size, transformed, goal);
          if data[index] == HEAD && data[index + 1] == ACK {
            prve.head := data[index];
            index := index + 1;
            prve.ack := data[index];
            index := index + 1;
            prve.dataSize := data[index];
            assert prve.data[..prve.readSize] == [];
          }
        } else if prve.readSize < prve.dataSize {
          ghost var got := prve.data[..prve.readSize];
          CopyBlock(prve.dataSize, got, mem, index, size, 1, transformed, goal);
          prve.data[prve.readSize] := data[index];
          prve.readSize := prve.readSize + 1;
          assert prve.data[..prve.readSize] == got + mem[index..index + 1];
        } else {
          EndFrame(prve.dataSize, prve.data[..prve.readSize], mem, index, size, transformed, goal);
          prve.endAck := data[index];
          if prve.endAck == prve.ack {
            transformed := transformed + [prve.data[..prve.readSize]];
          }
          prve.dataSize := 0;
          prve.readSize := 0;
        }
        index := index + 1;
      }
    }
  }
}
