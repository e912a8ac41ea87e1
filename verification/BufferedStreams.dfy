/** `BufferedStream`: a fixed array with a fill count, shifted in place; each method is proved
    against the byte-queue operation of the same name. */
module BufferedStreams {
  import opened Basics
  import opened Network
  import opened ByteQueue
  import opened Streams

  class BufferedStream {
    const stream: Stream
    const streamBuffer: array<byte>
    var bufferWriteOffset: nat  // the number of bytes currently in the buffer

    ghost predicate Valid()
      reads this
    {
      bufferWriteOffset <= streamBuffer.Length
    }

    function View(): (q: Queue)
      requires Valid()
      reads this, stream, streamBuffer
      ensures |q.data| == bufferWriteOffset
    {
      Queue(stream.net, streamBuffer[..bufferWriteOffset])
    }

    constructor (stream: Stream, bufferSize: nat)
      ensures Valid() && this.stream == stream && fresh(streamBuffer)
      ensures streamBuffer.Length == bufferSize && View() == Queue(stream.net, [])
    {
      this.stream := stream;
      streamBuffer := new byte[bufferSize](_ => 0);
      bufferWriteOffset := 0;
    }

    /** Lowers the fill count and moves the rest to the front with one `memmove`. */
    method RemoveFront(n: nat)
      requires Valid() && n <= bufferWriteOffset
      modifies this, streamBuffer
      ensures Valid() && bufferWriteOffset == old(bufferWriteOffset) - n
      ensures streamBuffer[..bufferWriteOffset] == old(streamBuffer[..bufferWriteOffset])[n..]
    {
      bufferWriteOffset := bufferWriteOffset - n;
      forall i | 0 <= i < bufferWriteOffset {
        streamBuffer[i] := streamBuffer[i + n];
      }
    }

    method ReadAvailableDataIntoBuffer() returns (r: Result<nat>)
      requires Valid()
      modifies this, stream`net, streamBuffer
      ensures Valid()
      ensures Step(View(), r) == Fill(stream.schedule, streamBuffer.Length, old(View()))
    {
      hide ReadLoop, Overlay;
      ghost var q := View();
      ghost var before := streamBuffer[..];
      ghost var t := ReadLoop(stream.schedule, q.net, streamBuffer.Length - bufferWriteOffset, 1, []);
      OverlayFront(before, bufferWriteOffset, t.filled);
      var readBytes := stream.Read(streamBuffer, bufferWriteOffset,
                                   streamBuffer.Length - bufferWriteOffset, 1);
      match readBytes {
        case Err(e) =>
          return Err(e);
        case Ok(k) =>
          bufferWriteOffset := bufferWriteOffset + k;
          return Ok(k);
      }
    }

    method PopFromBuffer(bytesToRead: nat) returns (r: Result<Bytes>)
      requires Valid()
      modifies this, streamBuffer
      ensures Valid()
      ensures Step(View(), r) == Pop(old(View()), bytesToRead)
    {
      if bytesToRead > bufferWriteOffset {
        return Err(OutOfRange);
      }
      ghost var q := View();
      var result := streamBuffer[..bytesToRead];
      assert result == q.data[..bytesToRead];
      RemoveFront(bytesToRead);
      return Ok(result);
    }

    /** The bytes before the delimiter are the result; the delimiter is dropped with them. */
    method TakeSegment(delimiterPos: nat) returns (result: Bytes)
      requires Valid() && delimiterPos < bufferWriteOffset
      modifies this, streamBuffer
      ensures Valid() && result == old(View()).data[..delimiterPos]
      ensures View() == Queue(stream.net, old(View()).data[delimiterPos + 1..])
    {
      ghost var q := View();
      result := streamBuffer[..delimiterPos];
      assert result == q.data[..delimiterPos];
      RemoveFront(delimiterPos + 1);
    }

    method ReadUntilDelimiter(delimiter: byte) returns (r: Result<Bytes>)
      requires Valid()
      modifies this, stream`net, streamBuffer
      ensures Valid()
      ensures Step(View(), r) == Until(stream.schedule, streamBuffer.Length, old(View()), delimiter)
    {
      hide Until, Fill, IndexOf;
      while bufferWriteOffset < streamBuffer.Length
        invariant Valid()
        invariant Until(stream.schedule, streamBuffer.Length, View(), delimiter)
               == Until(stream.schedule, streamBuffer.Length, old(View()), delimiter)
        decreases streamBuffer.Length - bufferWriteOffset
      {
        UntilStep(stream.schedule, streamBuffer.Length, View(), delimiter);
        var filled := ReadAvailableDataIntoBuffer();
        if filled.Err? {
          return Err(filled.error);
        }
        var delimiterPos := IndexOf(streamBuffer[..bufferWriteOffset], delimiter);
        if delimiterPos != bufferWriteOffset {
          var result := TakeSegment(delimiterPos);
          return Ok(result);
        }
      }
      assert Until(stream.schedule, streamBuffer.Length, View(), delimiter) == Step(View(), Err(BufferFull)) by {
        UntilFull(stream.schedule, streamBuffer.Length, View(), delimiter);
      }
      return Err(BufferFull);
    }

    method Read(bytesToRead: nat) returns (r: Result<Bytes>)
      requires Valid()
      modifies this, stream`net, streamBuffer
      ensures Valid()
      ensures Step(View(), r) == Exactly(stream.schedule, streamBuffer.Length, old(View()), bytesToRead)
    {
      if bytesToRead > streamBuffer.Length {
        return Err(BufferTooSmall);
      }
      while bufferWriteOffset < bytesToRead
        invariant Valid()
        invariant FillTo(stream.schedule, streamBuffer.Length, View(), bytesToRead)
               == FillTo(stream.schedule, streamBuffer.Length, old(View()), bytesToRead)
        decreases bytesToRead - bufferWriteOffset
      {
        var filled := ReadAvailableDataIntoBuffer();
        if filled.Err? {
          return Err(filled.error);
        }
      }
      r := PopFromBuffer(bytesToRead);
    }

    /** `read(ptr, max, min)`: the result is the length; the bytes are copied to the caller's buffer. */
    method ReadInto(buffer: array<byte>, maxBytesToRead: nat, minBytesToRead: nat) returns (r: Result<nat>)
      requires Valid() && buffer != streamBuffer && maxBytesToRead <= buffer.Length
      modifies this, stream`net, streamBuffer, buffer
      ensures Valid()
      ensures var raw := Raw(stream.schedule, streamBuffer.Length, old(View()), maxBytesToRead, minBytesToRead);
              && View() == raw.queue
              && match raw.result
                 case Err(e) => r == Err(e) && buffer[..] == old(buffer[..])
                 case Ok(bytes) =>
                   && r == Ok(|bytes|) && |bytes| <= maxBytesToRead
                   && buffer[..] == Overlay(old(buffer[..]), 0, bytes)
    {
      var filled := ReadAvailableDataIntoBuffer();
      if filled.Err? {
        return Err(filled.error);
      }
      ghost var first := View();
      while bufferWriteOffset < minBytesToRead
        invariant Valid()
        invariant buffer[..] == old(buffer[..])
        invariant FillTo(stream.schedule, streamBuffer.Length, View(), minBytesToRead)
               == FillTo(stream.schedule, streamBuffer.Length, first, minBytesToRead)
        decreases minBytesToRead - bufferWriteOffset
      {
        filled := ReadAvailableDataIntoBuffer();
        if filled.Err? {
          return Err(filled.error);
        }
      }
      var readDataLength := Min(bufferWriteOffset, maxBytesToRead);
      var data := PopFromBuffer(readDataLength);
      CopyOut(buffer, data.value);
      return Ok(readDataLength);
    }

    /** The copy loop into the caller's buffer. */
    static method CopyOut(buffer: array<byte>, data: Bytes)
      requires |data| <= buffer.Length
      modifies buffer
      ensures buffer[..] == Overlay(old(buffer[..]), 0, data)
    {
      for i := 0 to |data|
        invariant forall k | 0 <= k < i :: buffer[k] == data[k]
        invariant forall k | i <= k < buffer.Length :: buffer[k] == old(buffer[k])
      {
        buffer[i] := data[i];
      }
    }
  }
}
