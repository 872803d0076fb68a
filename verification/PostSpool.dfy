/** Spooling the body of a POST into a temporary file (src/read.c:157-213 and 310-428). */
module PostSpool {
  import opened Commons
  import opened Bytes

  /** `BODY_READ`, `BODY_WRITE`, then `init_cgi` or an error. */
  datatype Phase = BodyRead | BodyWrite | Cgi | Closed

  /** What `read` and `write` answer. */
  datatype Net = Got(bytes: seq<Byte>) | Eof | ReadAgain | ReadFailed
  datatype Disk = Wrote(count: nat) | WriteAgain | WriteInterrupted | WriteFailed

  // ----- The protocol on values ------------------------------------------------------

  /** The bytes waiting to be written, the two counters, and what has gone into the file and come
      from the socket. */
  datatype State = State(phase: Phase, pending: seq<Byte>, filesize: int, filepos: int, file: seq<Byte>, socket: seq<Byte>)

  datatype Event = Read(net: Net) | Write(disk: Disk)

  /** How much `read_body` asks for. */
  function Wanted(s: State): int { Min(s.filesize - s.filepos, BUFFER_SIZE - |s.pending|) }

  function ReadStep(s: State, net: Net): State {
    if Wanted(s) <= 0 then s.(phase := BodyWrite)
    else match net
      case Got(bytes) =>
        if 0 < |bytes| <= Wanted(s) then s.(phase := BodyWrite, pending := s.pending + bytes, socket := s.socket + bytes)
        else s
      case Eof => s.(phase := Closed)
      case ReadAgain => s
      case ReadFailed => s.(phase := Closed)
  }

  /** How much `write_body` offers. */
  function Offered(s: State): int { Min(|s.pending|, s.filesize - s.filepos) }

  function WriteStep(s: State, disk: Disk): State {
    if Offered(s) == 0 then s.(pending := [], phase := if s.filepos >= s.filesize then Cgi else BodyRead)
    else match disk
      case Wrote(k) =>
        if k <= Offered(s) && k <= |s.pending| then
          s.(filepos := s.filepos + k, file := s.file + s.pending[..k], pending := s.pending[k..])
        else s
      case WriteAgain => s
      case WriteInterrupted => s
      case WriteFailed => s.(phase := Closed)
  }

  /** `process_requests` calls the handler of the current status. */
  function Step(s: State, e: Event): State {
    if s.phase == BodyRead && e.Read? then ReadStep(s, e.net)
    else if s.phase == BodyWrite && e.Write? then WriteStep(s, e.disk)
    else s
  }

  function Run(s: State, events: seq<Event>): State
    decreases |events|
  {
    if events == [] then s else Run(Step(s, events[0]), events[1..])
  }

  /** At the end of the headers: the bytes already in the stream buffer, cut to the content length. */
  function Clamp(leftover: seq<Byte>, filesize: int): seq<Byte>
    requires filesize >= 0
  {
    if |leftover| > filesize then leftover[..filesize] else leftover
  }

  function Start(leftover: seq<Byte>, filesize: int): State
    requires filesize >= 0
  {
    State(BodyWrite, Clamp(leftover, filesize), filesize, 0, [], [])
  }

  /** File and pending bytes are the stream so far; together they never exceed the body; nothing
      is pending when the socket is read. */
  ghost predicate Inv(s: State, leftover: seq<Byte>) {
    && 0 <= s.filesize && s.filepos == |s.file|
    && s.file + s.pending == Clamp(leftover, s.filesize) + s.socket
    && s.filepos + |s.pending| <= s.filesize
    && (s.phase == BodyRead ==> s.pending == [] && s.filepos < s.filesize)
    && (s.phase == Cgi ==> s.pending == [] && s.filepos == s.filesize)
  }

  lemma StepKeepsInv(s: State, leftover: seq<Byte>, e: Event)
    requires Inv(s, leftover)
    ensures Inv(Step(s, e), leftover) && Step(s, e).filesize == s.filesize
  {
    if s.phase == BodyRead && e.Read? && e.net.Got? {
      assert s.file + (s.pending + e.net.bytes) == (s.file + s.pending) + e.net.bytes;
      assert Clamp(leftover, s.filesize) + (s.socket + e.net.bytes) == (Clamp(leftover, s.filesize) + s.socket) + e.net.bytes;
    } else if s.phase == BodyWrite && e.Write? && e.disk.Wrote? && e.disk.count <= |s.pending| {
      var k := e.disk.count;
      assert (s.file + s.pending[..k]) + s.pending[k..] == s.file + s.pending;
    }
  }

  lemma {:induction false} RunKeepsInv(s: State, leftover: seq<Byte>, events: seq<Event>)
    requires Inv(s, leftover)
    ensures Inv(Run(s, events), leftover) && Run(s, events).filesize == s.filesize
    decreases |events|
  {
    if events != [] {
      StepKeepsInv(s, leftover, events[0]);
      RunKeepsInv(Step(s, events[0]), leftover, events[1..]);
    }
  }

  /** Under any schedule of short, blocked or interrupted I/O: the socket is never read past the
      body, the file always is a prefix of it, and when `init_cgi` is reached the file holds
      exactly the first content-length bytes of the leftover bytes and the socket's. */
  lemma AnySchedule(leftover: seq<Byte>, filesize: int, events: seq<Event>)
    requires filesize >= 0
    ensures var s := Run(Start(leftover, filesize), events);
            && |Clamp(leftover, filesize)| + |s.socket| <= filesize
            && s.file + s.pending == Clamp(leftover, filesize) + s.socket
            && s.file <= leftover + s.socket
            && (s.phase == Cgi ==> |s.file| == filesize && s.file == (leftover + s.socket)[..filesize])
  {
    var s0 := Start(leftover, filesize);
    assert [] + s0.pending == s0.pending + [];
    RunKeepsInv(s0, leftover, events);
    var s := Run(s0, events);
    assert |s.file + s.pending| == |Clamp(leftover, filesize)| + |s.socket|;
    assert s.file <= s.file + s.pending;
    if |leftover| > filesize {
      assert s.socket == [];
      assert Clamp(leftover, filesize) + s.socket == leftover[..filesize];
      assert s.file <= leftover[..filesize];
      assert leftover[..filesize] <= leftover + s.socket;
    }
  }

  /** Work that accepts bytes makes progress: what is still to be read and written gets smaller. */
  lemma Progress(s: State, leftover: seq<Byte>, e: Event)
    requires Inv(s, leftover) && s.phase in {BodyRead, BodyWrite}
    ensures var s' := Step(s, e);
            (s.phase == BodyRead && e.Read? && e.net.Got? && 0 < |e.net.bytes| <= Wanted(s) ==>
               s'.phase == BodyWrite && s'.filesize - s'.filepos - |s'.pending| < s.filesize - s.filepos - |s.pending|)
            && (s.phase == BodyWrite && e.Write? && e.disk.Wrote? && 0 < e.disk.count <= Offered(s) ==>
                  s'.filesize - s'.filepos < s.filesize - s.filepos)
  {
  }

  /** A step closes the request exactly when the socket ends or fails before the whole body has come, or
      the file fails with bytes to write; a blocked or interrupted one changes nothing. */
  lemma ClosesExactly(s: State, leftover: seq<Byte>, e: Event)
    requires Inv(s, leftover) && s.phase in {BodyRead, BodyWrite}
    ensures Step(s, e).phase == Closed
            <==> (s.phase == BodyRead && e in {Read(Eof), Read(ReadFailed)})
                 || (s.phase == BodyWrite && s.pending != [] && e == Write(WriteFailed))
    ensures s.phase == BodyRead && e == Read(ReadAgain) ==> Step(s, e) == s
    ensures s.phase == BodyWrite && s.pending != [] && e in {Write(WriteAgain), Write(WriteInterrupted)} ==> Step(s, e) == s
  {
  }

  /** The socket gives bytes that were asked for, the file takes some of those offered, or nothing is
      left to write. */
  predicate Useful(s: State, e: Event) {
    if s.phase == BodyRead then e.Read? && e.net.Got? && 0 < |e.net.bytes| <= Min(s.filesize - s.filepos, 4096)
    else s.phase == BodyWrite && e.Write? && (s.pending == [] || (e.disk.Wrote? && 0 < e.disk.count <= |s.pending|))
  }

  /** A bound on the useful steps to come: three for each byte to be read, one for each to be written. */
  function Left(s: State): int {
    if s.phase == Cgi then 0
    else 3 * (s.filesize - s.filepos - |s.pending|) + |s.pending| + if s.phase == BodyWrite then 1 else 0
  }

  function UsefulSteps(s: State, events: seq<Event>): nat
    decreases |events|
  {
    if events == [] then 0 else (if Useful(s, events[0]) then 1 else 0) + UsefulSteps(Step(s, events[0]), events[1..])
  }

  predicate Failure(e: Event) { e in {Read(Eof), Read(ReadFailed), Write(WriteFailed)} }

  lemma StepLeft(s: State, leftover: seq<Byte>, e: Event)
    requires Inv(s, leftover) && s.phase != Closed && !Failure(e)
    ensures Step(s, e).phase != Closed && Left(Step(s, e)) + (if Useful(s, e) then 1 else 0) <= Left(s)
    ensures Left(s) <= 0 ==> s.phase == Cgi
  {
  }

  /** Without end of file and errors no run is closed, and enough useful steps, in any order with any
      others, reach `init_cgi`. */
  lemma {:induction false} RunReachesCgi(s: State, leftover: seq<Byte>, events: seq<Event>)
    requires Inv(s, leftover) && s.phase != Closed && forall e <- events :: !Failure(e)
    ensures Run(s, events).phase != Closed
    ensures UsefulSteps(s, events) >= Left(s) ==> Run(s, events).phase == Cgi
    decreases |events|
  {
    hide Step, Useful, Left, Inv;
    if events == [] {
      StepLeft(s, leftover, Write(WriteAgain));
    } else {
      StepLeft(s, leftover, events[0]);
      StepKeepsInv(s, leftover, events[0]);
      RunReachesCgi(Step(s, events[0]), leftover, events[1..]);
    }
  }

  /** So a schedule that delivers the body ends with `init_cgi` and the whole body in the file. */
  lemma BodySpooled(leftover: seq<Byte>, filesize: int, events: seq<Event>)
    requires filesize >= 0 && forall e <- events :: !Failure(e)
    ensures var s := Run(Start(leftover, filesize), events);
            && s.phase != Closed
            && (UsefulSteps(Start(leftover, filesize), events) >= 3 * filesize + 1 ==>
                  s.phase == Cgi && |s.file| == filesize && s.file <= leftover + s.socket)
  {
    hide Run, UsefulSteps;
    var s0 := Start(leftover, filesize);
    assert [] + s0.pending == s0.pending + [];
    RunReachesCgi(s0, leftover, events);
    AnySchedule(leftover, filesize, events);
  }

  lemma Cut(s: seq<Byte>, a: nat, b: nat, n: nat)
    requires a <= a + n <= b <= |s|
    ensures s[a..b][..n] == s[a..a + n]
  {
  }

  // ----- The request, with its two buffers ---------------------------------------------

  class Spool {
    const clientStream: array<Byte>
    const buffer: array<Byte>
    var inBuffer: bool            // do header_line and header_end point into `buffer`?
    var headerLine: nat
    var headerEnd: nat
    var filesize: int
    var filepos: int
    var phase: Phase
    ghost var file: seq<Byte>
    ghost var socket: seq<Byte>

    ghost predicate Valid()
      reads this
    {
      && clientStream.Length == CLIENT_STREAM_SIZE && buffer.Length == BUFFER_SIZE + 1 && clientStream != buffer
      && headerLine <= headerEnd <= (if inBuffer then BUFFER_SIZE else CLIENT_STREAM_SIZE)
      && (phase == BodyRead ==> inBuffer && headerLine == headerEnd == 0)
      && 0 <= filepos <= filesize && filepos + (headerEnd - headerLine) <= filesize
    }

    ghost function Value(): State
      requires Valid()
      reads this, clientStream, buffer
    {
      State(phase, if inBuffer then buffer[headerLine..headerEnd] else clientStream[headerLine..headerEnd],
            filesize, filepos, file, socket)
    }

    /** The end of `read_header` for a POST: `check` is the first byte after the headers and
        `streamPos` the end of what has been read. A missing, negative or too large content
        length is refused; the limit 0 means no limit. */
    method StartBody(check: nat, streamPos: nat, contentLength: Option<int>, singlePostLimit: int) returns (ok: bool)
      requires clientStream.Length == CLIENT_STREAM_SIZE && buffer.Length == BUFFER_SIZE + 1 && clientStream != buffer
      requires check <= streamPos <= CLIENT_STREAM_SIZE
      modifies this
      ensures ok <==> contentLength.Some? && contentLength.value >= 0
                      && (singlePostLimit == 0 || contentLength.value <= singlePostLimit)
      ensures ok ==> Valid() && Value() == Start(clientStream[check..streamPos], contentLength.value)
    {
      inBuffer, headerLine, headerEnd := false, check, streamPos;
      phase := BodyWrite;
      if contentLength.None? {
        return false;
      }
      if contentLength.value < 0 {
        return false;
      }
      if singlePostLimit != 0 && contentLength.value > singlePostLimit {
        return false;
      }
      filesize, filepos := contentLength.value, 0;
      file, socket := [], [];
      if headerEnd - headerLine > filesize {
        headerEnd := headerLine + filesize;
        Cut(clientStream[..], check, streamPos, filesize);
        assert clientStream[..][headerLine..headerEnd] == clientStream[headerLine..headerEnd];
      }
      assert Value().pending == Clamp(clientStream[check..streamPos], filesize);
      return true;
    }

    method ReadBody(net: Net) returns (result: int)
      requires Valid() && phase == BodyRead
      requires net.Got? ==> 0 < |net.bytes| <= Wanted(Value()) || Wanted(Value()) <= 0
      modifies this`phase, this`headerEnd, this`socket, buffer
      ensures Valid() && Value() == ReadStep(old(Value()), net)
      ensures result == if Wanted(old(Value())) <= 0 then 1 else match net case Got(_) => 1 case ReadAgain => -1 case _ => 0
    {
      var bytesFree := BUFFER_SIZE - (headerEnd - headerLine);
      var bytesToRead := filesize - filepos;
      if bytesToRead > bytesFree {
        bytesToRead := bytesFree;
      }
      if bytesToRead <= 0 {
        phase := BodyWrite;
        return 1;
      }
      match net {
        case ReadAgain => return -1;
        case ReadFailed =>
          phase := Closed;
          return 0;
        case Eof =>
          phase := Closed;
          return 0;
        case Got(bytes) =>
          forall k | 0 <= k < |bytes| {
            buffer[headerEnd + k] := bytes[k];
          }
          phase := BodyWrite;
          headerEnd := headerEnd + |bytes|;
          socket := socket + bytes;
          return 1;
      }
    }

    /** `count` bytes have been written. */
    method Advance(count: nat)
      requires Valid() && phase == BodyWrite && count <= headerEnd - headerLine
      modifies this`headerLine, this`filepos, this`file
      ensures Valid()
      ensures Value() == var s := old(Value());
                         s.(pending := s.pending[count..], filepos := s.filepos + count, file := s.file + s.pending[..count])
    {
      ghost var pending := Value().pending;
      file := file + pending[..count];
      filepos := filepos + count;
      headerLine := headerLine + count;
      assert Value().pending == pending[count..];
    }

    /** `result` 2 stands for the call of `init_cgi`. */
    method WriteBody(disk: Disk) returns (result: int)
      requires Valid() && phase == BodyWrite
      requires disk.Wrote? ==> disk.count <= Offered(Value())
      modifies this`phase, this`inBuffer, this`headerLine, this`headerEnd, this`filepos, this`file
      ensures Valid() && Value() == WriteStep(old(Value()), disk)
      ensures result == if Offered(old(Value())) == 0 then (if filepos >= filesize then 2 else 1)
                        else match disk case Wrote(_) => 1 case WriteInterrupted => 1 case WriteAgain => -1 case WriteFailed => 0
    {
      var bytesToWrite := headerEnd - headerLine;
      if filepos + bytesToWrite > filesize {
        bytesToWrite := filesize - filepos;
      }
      if bytesToWrite == 0 {
        inBuffer, headerLine, headerEnd := true, 0, 0;
        if filepos >= filesize {
          phase := Cgi;
          return 2;
        }
        phase := BodyRead;
        return 1;
      }
      match disk {
        case WriteAgain => return -1;
        case WriteInterrupted => return 1;
        case WriteFailed =>
          phase := Closed;
          return 0;
        case Wrote(count) =>
          Advance(count);
          return 1;
      }
    }
  }
}
