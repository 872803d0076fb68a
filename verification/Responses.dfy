/** The fields of `struct request` that sending uses, updated in place, with the value that each
    method moves them to (src/buffer.c:36-62, 213-257; src/pipe.c:268-369; src/get.c:396-532;
    src/response.c:47-63, 115-172). */
module Responses {
  import opened Commons
  import opened RangeSyntax
  import opened Transfer

  /** The fields of `struct request` that sending uses; the range list is a sequence here. */
  class Response {
    const job: Job
    const buffer: array<char>
    var bufferStart: nat
    var bufferEnd: nat
    var ranges: seq<Spec>
    var status: Status
    var fileOpen: bool
    ghost var wire: string
    ghost var produced: string

    ghost predicate Valid()
      reads this, buffer
    {
      buffer.Length == BUFFER_SIZE + 1 && bufferStart <= bufferEnd <= BUFFER_SIZE && Sound(job, Value())
    }

    ghost function Value(): Send
      requires bufferStart <= bufferEnd <= buffer.Length
      reads this, buffer
    {
      Send(ranges, buffer[bufferStart..bufferEnd], bufferEnd, status, fileOpen, wire, produced)
    }

    /** The result is -1 for an error, otherwise how much is stored. */
    method ReqWrite(msg: string) returns (stored: int)
      requires buffer.Length == BUFFER_SIZE + 1 && bufferStart <= bufferEnd <= BUFFER_SIZE
      modifies this`bufferEnd, this`status, this`produced, buffer
      ensures bufferStart <= bufferEnd <= BUFFER_SIZE && Value() == Transfer.ReqWrite(old(Value()), msg)
      ensures stored == if msg != "" && old(status) != Dead && status == Dead then -1 else bufferEnd
    {
      if msg == "" || status == Dead {
        return bufferEnd;
      }
      if bufferEnd + |msg| > BUFFER_SIZE {
        status := Dead;
        return -1;
      }
      forall k | 0 <= k < |msg| {
        buffer[bufferEnd + k] := msg[k];
      }
      bufferEnd := bufferEnd + |msg|;
      produced := produced + msg;
      return bufferEnd;
    }

    method ReqFlush(w: Sock) returns (result: int)
      requires buffer.Length == BUFFER_SIZE + 1 && bufferStart <= bufferEnd <= BUFFER_SIZE
      modifies this`bufferStart, this`bufferEnd, this`status, this`wire
      ensures bufferStart <= bufferEnd <= BUFFER_SIZE
      ensures (Value(), result) == Transfer.ReqFlush(old(Value()), w)
    {
      ghost var pending := Value().pending;
      var bytesToWrite := bufferEnd - bufferStart;
      if status == Dead {
        return -2;
      }
      if bytesToWrite != 0 {
        match w {
          case SockBlocked => return -1;
          case Broken =>
            bufferStart, bufferEnd := 0, 0;
            status := Dead;
            return -2;
          case Sent(count) =>
            var k := Min(count, bytesToWrite);
            wire := wire + pending[..k];
            bufferStart := bufferStart + k;
        }
      }
      if bufferStart == bufferEnd {
        bufferStart, bufferEnd := 0, 0;
      }
      return bufferEnd;
    }

    /** The print helpers hand their texts to `req_write` one after the other. */
    method WriteTexts(texts: seq<string>)
      requires buffer.Length == BUFFER_SIZE + 1 && bufferStart <= bufferEnd <= BUFFER_SIZE
      modifies this`bufferEnd, this`status, this`produced, buffer
      ensures bufferStart <= bufferEnd <= BUFFER_SIZE && Value() == WriteAll(old(Value()), texts)
    {
      for i := 0 to |texts|
        invariant bufferStart <= bufferEnd <= BUFFER_SIZE && Value() == WriteAll(old(Value()), texts[..i])
      {
        var _ := ReqWrite(texts[i]);
        assert texts[..i + 1][..i] == texts[..i];
      }
      assert texts[..|texts|] == texts;
    }

    method CompleteResponse(w: Sock) returns (result: int)
      requires Valid() && ranges != []
      modifies this`ranges, this`bufferStart, this`bufferEnd, this`status, this`wire, this`produced, buffer
      ensures bufferStart <= bufferEnd <= BUFFER_SIZE
      ensures (Value(), result) == Transfer.CompleteResponse(job, old(Value()), w)
    {
      ranges := ranges[1..];
      if job.multipart {
        if ranges != [] {
          WriteTexts(PartHeader(job, ranges[0]));
        } else {
          var _ := ReqWrite(TRAILER);
          status := Done;
          var _ := ReqFlush(w);
        }
        return 1;
      }
      status := Done;
      return 0;
    }

    /** The read into the buffer: `n` bytes of the file from the current position. */
    method TakeBytes(n: nat)
      requires Valid() && ranges != [] && n <= ranges[0].stop + 1 - ranges[0].start && bufferEnd + n <= BUFFER_SIZE
      modifies this`ranges, this`bufferEnd, this`produced, buffer
      ensures bufferStart <= bufferEnd <= BUFFER_SIZE && Value() == Take(job, old(Value()), n)
    {
      var start := ranges[0].start;
      forall k | 0 <= k < n {
        buffer[bufferEnd + k] := job.file[start + k];
      }
      assert buffer[bufferStart..bufferEnd + n] == old(Value().pending) + job.file[start..start + n];
      produced := produced + job.file[start..start + n];
      bufferEnd := bufferEnd + n;
      ranges := [Spec(start + n, ranges[0].stop)] + ranges[1..];
    }

    method ShuffleWrite(w: Sock) returns (result: int)
      requires buffer.Length == BUFFER_SIZE + 1 && bufferStart <= bufferEnd <= BUFFER_SIZE
      modifies this`bufferStart, this`bufferEnd, this`status, this`wire
      ensures bufferStart <= bufferEnd <= BUFFER_SIZE
      ensures (Value(), result) == Transfer.ShuffleWrite(old(Value()), w)
    {
      ghost var pending := Value().pending;
      var bytesToWrite := bufferEnd - bufferStart;
      if bytesToWrite == 0 {
        if !fileOpen {
          return 0;
        }
        bufferStart, bufferEnd := 0, 0;
        return 1;
      }
      match w {
        case SockBlocked => return -1;
        case Broken =>
          status := Dead;
          return 0;
        case Sent(count) =>
          var k := Min(count, bytesToWrite);
          wire := wire + pending[..k];
          bufferStart := bufferStart + k;
          if k == bytesToWrite {
            bufferStart, bufferEnd := 0, 0;
          }
          return 1;
      }
    }

    /** What `io_shuffle` does with `n` bytes of the file. */
    method Absorb(n: nat, w: Sock) returns (result: int)
      requires Valid() && ranges != [] && !job.head
      requires ranges[0].start + n <= ranges[0].stop + 1 && bufferEnd + n <= BUFFER_SIZE
      modifies this, buffer
      ensures bufferStart <= bufferEnd <= BUFFER_SIZE
      ensures (Value(), result) == Transfer.Absorb(job, old(Value()), n, w)
    {
      hide Transfer.CompleteResponse, Transfer.ShuffleWrite;
      TakeLaw(job, Value(), n);
      TakeBytes(n);
      if ranges[0].stop + 1 - ranges[0].start == 0 {
        result := CompleteResponse(w);
      } else {
        result := ShuffleWrite(w);
      }
    }

    method IoShuffle(d: Disk, w: Sock) returns (result: int)
      requires Valid() && ranges != []
      modifies this, buffer
      ensures bufferStart <= bufferEnd <= BUFFER_SIZE
      ensures (Value(), result) == Transfer.IoShuffle(job, old(Value()), d, w)
    {
      hide Transfer.CompleteResponse, Transfer.ShuffleWrite, Transfer.Absorb;
      if job.head {
        result := CompleteResponse(w);
        return;
      }
      var bytesToRead := BUFFER_SIZE - bufferEnd - RESERVE;
      var bytesToWrite := ranges[0].stop - ranges[0].start + 1;
      if bytesToRead > bytesToWrite {
        bytesToRead := bytesToWrite;
      }
      if bytesToRead > 0 && fileOpen {
        match d {
          case DiskFailed =>
            status := Dead;
            return 0;
          case DiskBlocked =>
            if bufferEnd - bufferStart == 0 {
              return -1;
            }
          case Bytes(count) =>
            var n := Min(count, bytesToRead);
            if n == 0 {
              fileOpen := false;
            } else {
              result := Absorb(n, w);
              return;
            }
        }
      }
      result := ShuffleWrite(w);
    }

    method ProcessGet(limit: nat, w: Sock, w2: Sock) returns (result: int)
      requires Valid() && ranges != []
      modifies this, buffer
      ensures bufferStart <= bufferEnd <= BUFFER_SIZE
      ensures (Value(), result) == Transfer.ProcessGet(job, old(Value()), limit, w, w2)
    {
      hide Transfer.CompleteResponse;
      if job.head {
        result := CompleteResponse(w2);
        return;
      }
      var bytesToWrite := ranges[0].stop - ranges[0].start + 1;
      if bytesToWrite > limit {
        bytesToWrite := limit;
      }
      match w {
        case SockBlocked => return -1;
        case Broken =>
          status := Dead;
          return 0;
        case Sent(count) =>
          var k, start := Min(count, bytesToWrite), ranges[0].start;
          wire := wire + job.file[start..start + k];
          produced := produced + job.file[start..start + k];
          ranges := [Spec(start + k, ranges[0].stop)] + ranges[1..];
      }
      if ranges[0].stop + 1 - ranges[0].start == 0 {
        result := CompleteResponse(w2);
        return;
      }
      return 1;
    }

    /** The end of `init_get` for a mapped file. */
    method InitCopy(w: Sock) returns (result: int)
      requires Valid() && ranges != []
      modifies this, buffer
      ensures bufferStart <= bufferEnd <= BUFFER_SIZE
      ensures (Value(), result) == Transfer.InitCopy(job, old(Value()), w)
    {
      hide Transfer.CompleteResponse;
      if job.head {
        result := CompleteResponse(w);
        return;
      }
      var bytesFree := BUFFER_SIZE - bufferEnd;
      if bytesFree > RESERVE {
        var want := ranges[0].stop - ranges[0].start + 1;
        if bytesFree > want {
          bytesFree := want;
        }
        TakeBytes(bytesFree);
        if bytesFree == want {
          result := CompleteResponse(w);
          return;
        }
      }
      return 1;
    }
  }
}
