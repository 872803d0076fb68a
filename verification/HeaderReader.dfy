/** Request headers arriving in arbitrary packets (src/read.c:57-289) and pipelined requests in
    one stream buffer (src/request.c:260-293). */
module HeaderReader {
  import opened Commons
  import opened Bytes

  const CR: Byte := 13
  const LF: Byte := 10
  const TAB: Byte := 9

  const MAX_HEADER_LENGTH := 1536

  type Line = seq<Byte>

  /** What `process_logline` or `process_option_line` makes of the last of the lines so far.
      `Simple` is an HTTP/0.9 request line. */
  datatype Verdict = Accept | Refuse | Simple

  type Handler = seq<Line> -> Verdict

  predicate Legal(c: Byte) { c == CR || c == LF || c == TAB || 32 <= c <= 127 }

  // ----- The reference: line by line ------------------------------------------------

  datatype Outcome = Reading | Ended | Illegal | TooLong | Refused | SimpleRequest

  /** Where reading stands: lines emitted, bytes consumed, start of the line being read. */
  datatype Parse = Parse(outcome: Outcome, lines: seq<Line>, pos: nat, start: nat)

  /** The first line feed or illegal byte from `i` on, or the end. */
  function Stop(s: seq<Byte>, i: nat): (p: nat)
    requires i <= |s|
    ensures i <= p <= |s|
    ensures forall k :: i <= k < p ==> s[k] != LF && Legal(s[k])
    ensures p < |s| ==> s[p] == LF || !Legal(s[p])
    decreases |s| - i
  {
    if i == |s| || s[i] == LF || !Legal(s[i]) then i else Stop(s, i + 1)
  }

  /** A line without its trailing carriage returns. */
  function Strip(line: seq<Byte>): (r: Line)
    ensures r <= line
    ensures r == [] || r[|r| - 1] != CR
    ensures forall k :: |r| <= k < |line| ==> line[k] == CR
  {
    if line != [] && line[|line| - 1] == CR then Strip(line[..|line| - 1]) else line
  }

  /** The header in `s` from the line that starts at `i`, after `lines`: lines end at a line feed,
      and the first empty one after the request line ends the header. */
  function Read(s: seq<Byte>, i: nat, lines: seq<Line>, h: Handler): (r: Parse)
    requires i <= |s|
    ensures i <= r.start <= r.pos <= |s|
    ensures r.outcome == Reading ==> r.pos == |s|
    ensures r.outcome == Ended ==> r.pos > i
    decreases |s| - i
  {
    var p := Stop(s, i);
    if p == |s| then Parse(Reading, lines, p, i)
    else if s[p] != LF then Parse(Illegal, lines, p, i)
    else
      var line := Strip(s[i..p]);
      if lines != [] && line == [] then Parse(Ended, lines, p + 1, p + 1)
      else if |line| >= MAX_HEADER_LENGTH then Parse(TooLong, lines, p + 1, i)
      else
        var more := lines + [line];
        if h(more) == Refuse then Parse(Refused, more, p + 1, i)
        else if lines == [] && h(more) == Simple then Parse(SimpleRequest, more, p + 1, i)
        else Read(s, p + 1, more, h)
  }

  /** Part of a line: legal bytes and no line feed. */
  ghost predicate Plain(s: seq<Byte>) { forall k :: 0 <= k < |s| ==> s[k] != LF && Legal(s[k]) }

  // ----- The byte-wise state machine -------------------------------------------------

  datatype Status = READ_HEADER | ONE_CR | ONE_LF | TWO_CR | BODY_READ | DEAD

  /** The status the machine is in when `line` has been read of the current line. */
  function StatusOf(lines: seq<Line>, line: seq<Byte>): Status {
    if lines != [] && Strip(line) == [] then (if line == [] then ONE_LF else TWO_CR)
    else if line != [] && line[|line| - 1] == CR then ONE_CR
    else READ_HEADER
  }

  lemma StripSnoc(line: seq<Byte>, c: Byte)
    ensures Strip(line + [c]) == if c == CR then Strip(line) else line + [c]
  {
    assert (line + [c])[..|line|] == line;
  }

  // ----- Sessions ----------------------------------------------------------------------

  /** A connection: line lists of the requests completed so far, the bytes received since the
      current request began, and how far they have been read. */
  datatype Session = Session(done: seq<seq<Line>>, buf: seq<Byte>, at: Parse)

  const NEW := Parse(Reading, [], 0, 0)
  const FRESH := Session([], [], NEW)

  /** A packet arrives, the buffer is scanned, or a finished request makes way for the next. */
  datatype Event = Packet(bytes: seq<Byte>) | Scanned | Restarted

  function Step(s: Session, e: Event, h: Handler): Session
    requires s.at.start <= |s.buf| && s.at.pos <= |s.buf|
  {
    match e
    case Packet(bytes) => s.(buf := s.buf + bytes)
    case Scanned => if s.at.outcome == Reading then s.(at := Read(s.buf, s.at.start, s.at.lines, h)) else s
    case Restarted => if s.at.outcome == Ended then Session(s.done + [s.at.lines], s.buf[s.at.pos..], NEW) else s
  }

  /** The line lists of the complete requests in `s`, each read alone. */
  function Requests(s: seq<Byte>, h: Handler): seq<seq<Line>>
    decreases |s|
  {
    var r := Read(s, 0, [], h);
    if r.outcome == Ended then [r.lines] + Requests(s[r.pos..], h) else []
  }

  /** Reading in steps has not gone astray. */
  ghost predicate Good(s: Session, h: Handler) {
    && s.at.start <= |s.buf| && s.at.pos <= |s.buf|
    && Read(s.buf, 0, [], h) == if s.at.outcome == Reading then Read(s.buf, s.at.start, s.at.lines, h) else s.at
  }

  function BytesOf(e: Event): seq<Byte> { if e.Packet? then e.bytes else [] }

  // ----- The connection -----------------------------------------------------------------

  /** What `read` returns. */
  datatype Net = Got(bytes: seq<Byte>) | Closed | Again | Interrupted | Failed

  predicate Hangup(net: Net) { net.Closed? || net.Failed? }

  /** The bytes `read` puts into `room` bytes of buffer. */
  function Arrived(net: Net, room: nat): seq<Byte> {
    if !net.Got? then [] else if |net.bytes| <= room then net.bytes else net.bytes[..room]
  }

  class Conn {
    const stream: array<Byte>
    var streamPos: nat
    var parsePos: nat
    var headerLine: nat
    var headerEnd: nat
    var status: Status
    var lines: seq<Line>   // handed to the line handlers so far; `logline` is set once it is not empty
    ghost var session: Session

    /** A connection before its first `read_header`. */
    constructor (h: Handler)
      ensures Tracks(h) && session == FRESH && status == READ_HEADER && fresh(stream)
    {
      stream := new Byte[CLIENT_STREAM_SIZE](_ => 0);
      streamPos, parsePos, headerLine, headerEnd, lines := 0, 0, 0, 0, [];
      status := READ_HEADER;
      session := FRESH;
    }

    ghost predicate Valid()
      reads this, stream
    {
      && stream.Length == CLIENT_STREAM_SIZE
      && headerLine <= parsePos <= streamPos <= CLIENT_STREAM_SIZE
      && status == StatusOf(lines, Current())
      && (status == ONE_CR ==> headerEnd == headerLine + |Strip(Current())|)
      && Plain(Current())
    }

    /** The stream buffer holds the session's, except that the lines handed over may have been
        changed; the indexes say how far the session has been read. */
    ghost predicate Tracks(h: Handler)
      reads this, stream
    {
      && stream.Length == CLIENT_STREAM_SIZE && parsePos <= streamPos <= CLIENT_STREAM_SIZE
      && Good(session, h)
      && |session.buf| == streamPos && session.at.lines == lines && session.at.pos == parsePos
      && stream[parsePos..streamPos] == session.buf[parsePos..]
      && (session.at.outcome == Reading ==> Valid() && session.at.start == headerLine && Text() == session.buf[headerLine..])
    }

    /** The part of the current line already looked at. */
    ghost function Current(): seq<Byte>
      requires headerLine <= parsePos <= stream.Length
      reads this, stream
    {
      stream[headerLine..parsePos]
    }

    /** Everything from the start of the current line on. */
    ghost function Text(): seq<Byte>
      requires headerLine <= streamPos <= stream.Length
      reads this, stream
    {
      stream[headerLine..streamPos]
    }

    /** The switch on the status. A line feed leads to `ONE_LF` with `headerEnd` at the end of the
        stripped line, or to `BODY_READ` at an empty line after the first. */
    method NextStatus(uc: Byte)
      requires Valid() && parsePos < CLIENT_STREAM_SIZE
      modifies this`status, this`headerEnd
      ensures uc != LF ==>
                && status == StatusOf(lines, Current() + [uc])
                && (status == ONE_CR ==> headerEnd == headerLine + |Strip(Current() + [uc])|)
      ensures uc == LF ==>
                if lines != [] && Strip(Current()) == [] then status == BODY_READ
                else status == ONE_LF && headerEnd == headerLine + |Strip(Current())|
    {
      hide Strip, Legal, Plain;
      StripSnoc(Current(), uc);
      match status {
        case READ_HEADER =>
          if uc == CR {
            status := ONE_CR;
            headerEnd := parsePos;
          } else if uc == LF {
            status := ONE_LF;
            headerEnd := parsePos;
          }
        case ONE_CR =>
          if uc == LF {
            status := ONE_LF;
          } else if uc != CR {
            status := READ_HEADER;
          }
        case ONE_LF =>
          if uc == CR {
            status := TWO_CR;
          } else if uc == LF {
            status := BODY_READ;
          } else {
            status := READ_HEADER;
          }
        case TWO_CR =>
          if uc == LF {
            status := BODY_READ;
          } else if uc != CR {
            status := READ_HEADER;
          }
        case _ =>
      }
    }

    /** What follows `status == ONE_LF`: terminate the line, check its length, hand it over. */
    method EndLine(h: Handler, ghost line: seq<Byte>) returns (r: Outcome)
      requires stream.Length == CLIENT_STREAM_SIZE && headerLine <= headerEnd < parsePos <= streamPos <= CLIENT_STREAM_SIZE
      requires line == stream[headerLine..headerEnd]
      modifies this`headerLine, this`lines, stream
      ensures forall k :: parsePos <= k < stream.Length ==> stream[k] == old(stream[k])
      ensures if |line| >= MAX_HEADER_LENGTH then r == TooLong && lines == old(lines)
              else
                && lines == old(lines) + [line]
                && if h(lines) == Refuse then r == Refused
                   else if old(lines) == [] && h(lines) == Simple then r == SimpleRequest
                   else r == Reading && headerLine == parsePos
    {
      stream[headerEnd] := 0;
      if headerEnd - headerLine >= MAX_HEADER_LENGTH {
        return TooLong;
      }
      lines := lines + [stream[headerLine..headerEnd]];
      if h(lines) == Refuse {
        return Refused;
      } else if |lines| == 1 && h(lines) == Simple {
        return SimpleRequest;
      }
      headerLine := parsePos;
      return Reading;
    }

    /** One byte of the loop of `read_header`; `Reading` means that the loop goes on. */
    method ReadByte(h: Handler) returns (r: Outcome)
      requires Valid() && parsePos < streamPos
      modifies this`parsePos, this`headerLine, this`headerEnd, this`status, this`lines, stream
      ensures forall k :: parsePos <= k < stream.Length ==> stream[k] == old(stream[k])
      ensures var c, line := old(stream[parsePos]), Strip(old(Current()));
              if !Legal(c) then r == Illegal && parsePos == old(parsePos) && lines == old(lines)
              else
                && parsePos == old(parsePos) + 1
                && if c != LF then
                     r == Reading && Valid() && lines == old(lines) && headerLine == old(headerLine)
                     && forall k :: headerLine <= k < parsePos ==> stream[k] == old(stream[k])
                   else if old(lines) != [] && line == [] then r == Ended && lines == old(lines)
                   else if |line| >= MAX_HEADER_LENGTH then r == TooLong && lines == old(lines)
                   else
                     && lines == old(lines) + [line]
                     && if h(lines) == Refuse then r == Refused
                        else if old(lines) == [] && h(lines) == Simple then r == SimpleRequest
                        else r == Reading && Valid() && headerLine == parsePos
    {
      hide Strip, StatusOf, Plain;
      var uc := stream[parsePos];
      ghost var before := Current();
      StatusBetween(lines, before, uc);
      PlainSnoc(before, uc);
      if uc != CR && uc != LF && uc != TAB && (uc < 32 || uc > 127) {
        return Illegal;
      }
      NextStatus(uc);
      parsePos := parsePos + 1;
      assert Current() == before + [uc];
      if status == ONE_LF {
        assert stream[headerLine..headerEnd] == Strip(before);
        r := EndLine(h, Strip(before));
        StatusAtLineStart(lines);
        assert stream[parsePos..parsePos] == [];
      } else if status == BODY_READ {
        r := Ended;
      } else {
        r := Reading;
      }
    }

    /** `ReadByte` in terms of the reference: `text` is what the buffer `orig` held from `base` on. */
    method ReadOne(h: Handler, ghost orig: seq<Byte>, ghost base: nat, ghost text: seq<Byte>) returns (r: Outcome)
      requires Valid() && parsePos < streamPos && base <= headerLine
      requires Unread(orig, headerLine) && text == orig[base..streamPos]
      modifies this`parsePos, this`headerLine, this`headerEnd, this`status, this`lines, stream
      ensures var e := Read(text, old(headerLine) - base, old(lines), h);
              if r == Reading then
                && Valid() && Unread(orig, headerLine) && old(headerLine) <= headerLine && old(parsePos) < parsePos
                && e == Read(text, headerLine - base, lines, h)
              else r == e.outcome && lines == e.lines && parsePos == base + e.pos && Unread(orig, parsePos)
    {
      hide Strip, StatusOf, Legal, Read, Plain, Unread;
      ghost var before, line := stream[..], headerLine;
      UnreadFrom(orig, line);
      ReadHere(h, orig, base, text);
      r := ReadByte(h);
      StillUnread(orig, before, line, parsePos);
    }

    /** `Read` from the current line on, when the next byte is none of the line. */
    lemma ReadHere(h: Handler, orig: seq<Byte>, base: nat, text: seq<Byte>)
      requires Valid() && parsePos < streamPos && base <= headerLine
      requires Unread(orig, headerLine) && text == orig[base..streamPos]
      ensures var e, c, line := Read(text, headerLine - base, lines, h), stream[parsePos], Strip(Current());
              if !Legal(c) then e == Parse(Illegal, lines, parsePos - base, headerLine - base)
              else if c == LF then
                var next := parsePos + 1 - base;
                if lines != [] && line == [] then e == Parse(Ended, lines, next, next)
                else if |line| >= MAX_HEADER_LENGTH then e == Parse(TooLong, lines, next, headerLine - base)
                else if h(lines + [line]) == Refuse then e == Parse(Refused, lines + [line], next, headerLine - base)
                else if lines == [] && h(lines + [line]) == Simple then
                  e == Parse(SimpleRequest, lines + [line], next, headerLine - base)
                else e == Read(text, next, lines + [line], h)
              else true
    {
      hide Strip, StatusOf, Legal, Read, Plain, Unread;
      UnreadFrom(orig, headerLine);
      Shifted(orig, base, streamPos, headerLine, parsePos);
      CurrentIs(orig);
      ReadAt(text, headerLine - base, parsePos - base, lines, h);
      UnreadAt(orig, headerLine, parsePos);
      assert text[parsePos - base] == stream[parsePos];
    }

    lemma UnreadFrom(orig: seq<Byte>, line: nat)
      requires Unread(orig, line)
      ensures |orig| == stream.Length && (line <= |orig| ==> orig[line..] == stream[..][line..])
    {
    }

    /** What was unread stays so from any later position, and from the start of a line that goes on. */
    lemma StillUnread(orig: seq<Byte>, before: seq<Byte>, line: nat, p: nat)
      requires line <= p <= |orig| == |before| == stream.Length && orig[line..] == before[line..]
      requires forall k :: p <= k < stream.Length ==> stream[k] == before[k]
      ensures forall q: nat :: p <= q ==> Unread(orig, q)
      ensures (forall k :: line <= k < p ==> stream[k] == before[k]) ==> Unread(orig, line)
    {
      assert forall k :: line <= k < |orig| ==> orig[k] == orig[line..][k - line] == before[k];
    }

    /** The loop of `read_header` over the bytes in the buffer. It does what the line-wise
        reference does, and the bytes it has not consumed are untouched. */
    method Scan(h: Handler) returns (r: Outcome)
      requires Valid()
      modifies this`parsePos, this`headerLine, this`headerEnd, this`status, this`lines, stream
      ensures var e := Read(old(Text()), 0, old(lines), h);
              && r == e.outcome && lines == e.lines && parsePos == old(headerLine) + e.pos
              && (r == Reading ==> Valid() && headerLine == old(headerLine) + e.start)
      ensures Unread(old(stream[..]), if r == Reading then headerLine else parsePos)
    {
      hide Strip, StatusOf, Legal, Read, Plain, Unread;
      ghost var base, text, lines0, orig := headerLine, Text(), lines, stream[..];
      AllUnread(headerLine);
      while parsePos < streamPos
        invariant Valid() && base <= headerLine && Unread(orig, headerLine)
        invariant Read(text, 0, lines0, h) == Read(text, headerLine - base, lines, h)
        decreases streamPos - parsePos
      {
        r := ReadOne(h, orig, base, text);
        if r != Reading {
          return;
        }
      }
      Shifted(orig, base, streamPos, headerLine, parsePos);
      CurrentIs(orig);
      ReadAt(text, headerLine - base, |text|, lines, h);
      r := Reading;
    }

    /** Parse what is in the buffer, then read once more from the socket. */
    method ParseAndRead(h: Handler, net: Net) returns (outcome: Outcome, result: int)
      requires Valid() && (net.Got? ==> net.bytes != [])
      modifies this`parsePos, this`streamPos, this`headerLine, this`headerEnd, this`status, this`lines, stream
      ensures var e := Read(old(Text()), 0, old(lines), h);
              && outcome == e.outcome && lines == e.lines && parsePos == old(headerLine) + e.pos
              && if outcome != Reading then
                   streamPos == old(streamPos) && Unread(old(stream[..]), parsePos)
                 else if old(streamPos) == CLIENT_STREAM_SIZE then status == DEAD && result == 0
                 else
                   && Valid()
                   && headerLine == old(headerLine) + e.start
                   && streamPos == old(streamPos) + |Arrived(net, CLIENT_STREAM_SIZE - old(streamPos))|
                   && Text() == old(Text())[e.start..] + Arrived(net, CLIENT_STREAM_SIZE - old(streamPos))
                   && result == (match net case Got(_) => 1 case Interrupted => 1 case Again => -1 case _ => 0)
    {
      hide Strip, StatusOf, Legal, Read, Plain, Unread;
      ghost var base, orig := headerLine, stream[..];
      outcome := Scan(h);
      if outcome != Reading {
        return outcome, 0;
      }
      Shifted(orig, base, streamPos, headerLine, streamPos);
      TextIs(orig);
      if CLIENT_STREAM_SIZE - streamPos < 1 {
        status := DEAD;
        return outcome, 0;
      }
      result := ReadMore(net);
    }

    /** The `read` at the end of `read_header`, with room in the buffer. */
    method ReadMore(net: Net) returns (result: int)
      requires Valid() && streamPos < CLIENT_STREAM_SIZE
      modifies this`streamPos, stream
      ensures Valid() && Text() == old(Text()) + Arrived(net, CLIENT_STREAM_SIZE - old(streamPos))
      ensures streamPos == old(streamPos) + |Arrived(net, CLIENT_STREAM_SIZE - old(streamPos))|
      ensures result == (match net case Got(_) => 1 case Interrupted => 1 case Again => -1 case _ => 0)
    {
      hide Strip, StatusOf, Legal, Read, Plain;
      var bufBytesLeft := CLIENT_STREAM_SIZE - streamPos;
      match net {
        case Got(bytes) =>
          Receive(if |bytes| <= bufBytesLeft then bytes else bytes[..bufBytesLeft]);
          result := 1;
        case Interrupted => result := 1;
        case Again => result := -1;
        case _ => result := 0;
      }
    }

    /** `read_header`, where `net` is what the socket answers: the bytes in the buffer are scanned; if
        the header does not end there, the request is dead when the buffer is full, and otherwise
        a packet is received. The result is -1 blocked, 0 done, 1 more to do. */
    method ReadHeader(h: Handler, net: Net) returns (outcome: Outcome, result: int)
      requires Tracks(h) && session.at.outcome == Reading && (net.Got? ==> net.bytes != [])
      modifies this`parsePos, this`streamPos, this`headerLine, this`headerEnd, this`status, this`lines, this`session, stream
      ensures var scanned, room := Step(old(session), Scanned, h), CLIENT_STREAM_SIZE - old(streamPos);
              && outcome == scanned.at.outcome
              && if outcome != Reading then Tracks(h) && session == scanned
                 else if room == 0 then status == DEAD && result == 0 && session == scanned
                 else
                   && Tracks(h) && session == Step(scanned, Packet(Arrived(net, room)), h)
                   && result == (match net case Got(_) => 1 case Interrupted => 1 case Again => -1 case _ => 0)
    {
      hide Read, Strip, StatusOf, Legal, Plain, Good, Unread, Tracks, Step;
      TracksFacts(h);
      ghost var s, line, orig := session, headerLine, stream[..];
      assert orig[line..streamPos] == s.buf[line..];
      ScannedStep(s, Text(), h);
      ghost var scanned := Step(s, Scanned, h);
      outcome, result := ParseAndRead(h, net);
      session := scanned;
      if outcome != Reading {
        UnreadTail(h, orig, line);
      } else if |s.buf| < CLIENT_STREAM_SIZE {
        ghost var bytes := Arrived(net, CLIENT_STREAM_SIZE - |s.buf|);
        PacketStep(scanned, bytes, h);
        session := Step(scanned, Packet(bytes), h);
        TailAppended(s.buf, line, headerLine, bytes);
        ReadingTail(h);
      }
    }

    lemma TracksFacts(h: Handler)
      requires Tracks(h) && session.at.outcome == Reading
      ensures Valid() && Good(session, h) && |session.buf| == streamPos && session.at.start == headerLine
      ensures session.at.lines == lines && session.at.pos == parsePos && Text() == session.buf[headerLine..]
    {
    }

    lemma UnreadTail(h: Handler, orig: seq<Byte>, line: nat)
      requires stream.Length == CLIENT_STREAM_SIZE && Unread(orig, parsePos) && line <= parsePos <= streamPos <= stream.Length
      requires |session.buf| == streamPos && orig[line..streamPos] == session.buf[line..]
      requires Good(session, h) && session.at.lines == lines && session.at.pos == parsePos && session.at.outcome != Reading
      ensures Tracks(h)
    {
      hide Read, Good, Strip, StatusOf, Legal, Plain;
      assert orig[line..streamPos][parsePos - line..] == orig[parsePos..streamPos];
      assert session.buf[line..][parsePos - line..] == session.buf[parsePos..];
      assert stream[parsePos..streamPos] == orig[parsePos..streamPos];
    }

    lemma ReadingTail(h: Handler)
      requires Valid() && Good(session, h) && |session.buf| == streamPos && session.at.start == headerLine
      requires session.at.lines == lines && session.at.pos == parsePos && Text() == session.buf[headerLine..]
      ensures Tracks(h)
    {
      hide Read, Good, Strip, StatusOf, Legal, Plain;
      assert Text()[parsePos - headerLine..] == stream[parsePos..streamPos];
      assert session.buf[headerLine..][parsePos - headerLine..] == session.buf[parsePos..];
    }

    /** The life of a connection that is kept: `read_header` again and again, with `sanitize_request`
        after each request; `nets` is what the socket answers, one for each call. */
    method Serve(h: Handler, nets: seq<Net>) returns (open: bool)
      requires Tracks(h) && session.at.outcome == Reading && forall net <- nets :: net.Got? ==> net.bytes != []
      modifies this, stream
      ensures Good(old(session), h) && Link(session, open) == Calls(Link(old(session), true), nets, h)
      ensures open ==> Tracks(h)
    {
      hide Valid, Good, Read;
      open := true;
      ghost var s := session;
      for i := 0 to |nets|
        invariant open && Tracks(h) && session.at.outcome == Reading
        invariant Good(s, h) && Good(session, h)
        invariant Calls(Link(session, true), nets[i..], h) == Calls(Link(s, true), nets, h)
      {
        assert nets[i] in nets && nets[i..][0] == nets[i] && nets[i..][1..] == nets[i + 1..];
        var outcome, result := ReadHeader(h, nets[i]);
        if outcome == Ended {
          Sanitize(false, h);
        } else if outcome != Reading || result == 0 {
          open := false;
          return;
        }
      }
    }

    /** `read` into the free part of the stream buffer. */
    method Receive(bytes: seq<Byte>)
      requires Valid() && streamPos + |bytes| <= CLIENT_STREAM_SIZE
      modifies this`streamPos, stream
      ensures Valid() && Text() == old(Text()) + bytes && Current() == old(Current())
      ensures streamPos == old(streamPos) + |bytes|
    {
      hide Strip, StatusOf, Plain;
      forall k | 0 <= k < |bytes| {
        stream[streamPos + k] := bytes[k];
      }
      streamPos := streamPos + |bytes|;
      assert stream[..old(streamPos)] == old(stream[..streamPos]) && stream[old(streamPos)..streamPos] == bytes;
      assert Current() == old(Current());
    }

    /** `sanitize_request`: a new connection starts empty; a kept one starts with what is left over. */
    method Sanitize(newRequest: bool, ghost h: Handler)
      requires Tracks(h) && (newRequest || session.at.outcome == Ended)
      modifies this, stream
      ensures Tracks(h) && status == READ_HEADER && lines == [] && parsePos == headerLine == 0
      ensures session == if newRequest then FRESH else Step(old(session), Restarted, h)
    {
      hide Read, Good, Strip, StatusOf, Legal;
      ghost var s := session;
      NewIsGood(h);
      GoodBounds(s, h);
      MoveDown(newRequest);
      StepLaw(s, Restarted, h, []);
      session := if newRequest then FRESH else Step(s, Restarted, h);
    }

    /** The bytes not yet parsed move to the front of the stream buffer. */
    method MoveDown(newRequest: bool)
      requires stream.Length == CLIENT_STREAM_SIZE && parsePos <= streamPos <= CLIENT_STREAM_SIZE
      modifies this`streamPos, this`parsePos, this`headerLine, this`headerEnd, this`lines, this`status, stream
      ensures Valid() && status == READ_HEADER && lines == [] && parsePos == headerLine == 0
      ensures Text() == if newRequest then [] else old(stream[parsePos..streamPos])
    {
      if newRequest {
        streamPos := 0;
      } else {
        var bytesToMove := streamPos - parsePos;
        if bytesToMove != 0 {
          forall k | 0 <= k < bytesToMove {
            stream[k] := stream[parsePos + k];
          }
        }
        streamPos := bytesToMove;
      }
      parsePos, headerLine, headerEnd, lines := 0, 0, 0, [];
      status := READ_HEADER;
      assert Current() == [];
    }

    lemma AllUnread(p: nat)
      ensures Unread(stream[..], p)
    {
    }

    ghost predicate Unread(orig: seq<Byte>, p: nat)
      reads stream
    {
      |orig| == stream.Length && forall k :: p <= k < |orig| ==> stream[k] == orig[k]
    }

    lemma UnreadAt(orig: seq<Byte>, p: nat, k: nat)
      requires Unread(orig, p) && p <= k < stream.Length
      ensures |orig| == stream.Length && orig[k] == stream[k]
    {
    }

    lemma CurrentIs(orig: seq<Byte>)
      requires headerLine <= parsePos <= stream.Length && Unread(orig, headerLine)
      ensures Current() == orig[headerLine..parsePos]
    {
    }

    lemma TextIs(orig: seq<Byte>)
      requires headerLine <= streamPos <= stream.Length && Unread(orig, headerLine)
      ensures Text() == orig[headerLine..streamPos]
    {
    }
  }

  lemma Shifted(s: seq<Byte>, base: nat, end: nat, a: nat, b: nat)
    requires base <= a <= b <= end <= |s|
    ensures s[base..end][a - base..b - base] == s[a..b]
  {
    assert forall k :: a <= k < b ==> s[base..end][k - base] == s[k];
  }

  lemma NewIsGood(h: Handler)
    ensures Good(FRESH, h)
  {
  }

  lemma TailAppended(s: seq<Byte>, a: nat, b: nat, bytes: seq<Byte>)
    requires a <= b <= |s|
    ensures s[a..][b - a..] + bytes == (s + bytes)[b..]
  {
  }

  lemma GoodBounds(s: Session, h: Handler)
    requires Good(s, h)
    ensures s.at.start <= |s.buf| && s.at.pos <= |s.buf|
  {
  }

  /** The same reading `i` bytes further on. */
  function Moved(r: Parse, i: nat): Parse { Parse(r.outcome, r.lines, r.pos + i, r.start + i) }

  /** Where a text begins makes no difference to how it is read. */
  lemma {:induction false} ReadShift(s: seq<Byte>, i: nat, j: nat, lines: seq<Line>, h: Handler)
    requires i + j <= |s|
    ensures Read(s, i + j, lines, h) == Moved(Read(s[i..], j, lines, h), i)
    decreases |s| - (i + j)
  {
    hide Read, Strip, Legal, Stop, Plain, Moved;
    var p := Stop(s, i + j);
    StopPlain(s, i + j);
    if p < |s| && s[p] == LF {
      ReadShift(s, i, p + 1 - i, lines + [Strip(s[i + j..p])], h);
    }
    LineShift(s, i, i + j, p, lines, h);
  }

  /** One line of it. */
  lemma LineShift(s: seq<Byte>, i: nat, a: nat, p: nat, lines: seq<Line>, h: Handler)
    requires i <= a <= p <= |s| && Plain(s[a..p]) && (p < |s| ==> s[p] == LF || !Legal(s[p]))
    requires p < |s| && s[p] == LF ==>
               var ls := lines + [Strip(s[a..p])]; Read(s, p + 1, ls, h) == Moved(Read(s[i..], p + 1 - i, ls, h), i)
    ensures Read(s, a, lines, h) == Moved(Read(s[i..], a - i, lines, h), i)
  {
    hide Read, Strip, Legal, Stop, Plain;
    TailSlice(s, i, a, p);
    ReadAt(s, a, p, lines, h);
    ReadAt(s[i..], a - i, p - i, lines, h);
  }

  lemma TailSlice(s: seq<Byte>, i: nat, a: nat, b: nat)
    requires i <= a <= b <= |s|
    ensures s[i..][a - i..b - i] == s[a..b] && (b < |s| ==> s[i..][b - i] == s[b])
  {
  }

  lemma StopPlain(s: seq<Byte>, i: nat)
    requires i <= |s|
    ensures var p := Stop(s, i); i <= p <= |s| && Plain(s[i..p]) && (p < |s| ==> s[p] == LF || !Legal(s[p]))
  {
  }

  /** A scan, from the text behind the lines already handed over. */
  lemma ScannedStep(s: Session, text: seq<Byte>, h: Handler)
    requires Good(s, h) && s.at.outcome == Reading && s.at.start <= |s.buf| && text == s.buf[s.at.start..]
    ensures var r := Step(s, Scanned, h);
            Good(r, h) && r == s.(at := Moved(Read(text, 0, s.at.lines, h), s.at.start))
  {
    hide Read, Good;
    ReadShift(s.buf, s.at.start, 0, s.at.lines, h);
    GoodBounds(s, h);
    StepLaw(s, Scanned, h, []);
  }

  lemma PacketStep(s: Session, bytes: seq<Byte>, h: Handler)
    requires Good(s, h)
    ensures s.at.start <= |s.buf| && s.at.pos <= |s.buf|
    ensures var r := Step(s, Packet(bytes), h); Good(r, h) && r == s.(buf := s.buf + bytes)
  {
    hide Read, Good;
    GoodBounds(s, h);
    StepLaw(s, Packet(bytes), h, []);
  }

  /** `Read` when the line from `i` on is known up to `p`. */
  lemma ReadAt(s: seq<Byte>, i: nat, p: nat, lines: seq<Line>, h: Handler)
    requires i <= p <= |s| && Plain(s[i..p])
    ensures var r, line := Read(s, i, lines, h), Strip(s[i..p]);
            if p == |s| then r == Parse(Reading, lines, p, i)
            else if !Legal(s[p]) then r == Parse(Illegal, lines, p, i)
            else if s[p] == LF then
              if lines != [] && line == [] then r == Parse(Ended, lines, p + 1, p + 1)
              else if |line| >= MAX_HEADER_LENGTH then r == Parse(TooLong, lines, p + 1, i)
              else if h(lines + [line]) == Refuse then r == Parse(Refused, lines + [line], p + 1, i)
              else if lines == [] && h(lines + [line]) == Simple then r == Parse(SimpleRequest, lines + [line], p + 1, i)
              else r == Read(s, p + 1, lines + [line], h)
            else true
  {
    hide Strip;
    assert forall k :: i <= k < p ==> s[k] == s[i..p][k - i];
    StopAt(s, i, p);
  }

  lemma {:induction false} StopAt(s: seq<Byte>, i: nat, p: nat)
    requires i <= p <= |s| && forall k :: i <= k < p ==> s[k] != LF && Legal(s[k])
    ensures p == |s| || s[p] == LF || !Legal(s[p]) ==> Stop(s, i) == p
    decreases p - i
  {
    if i < p {
      StopAt(s, i + 1, p);
    }
  }

  lemma PlainSnoc(line: seq<Byte>, c: Byte)
    requires Plain(line)
    ensures Plain([]) && (Legal(c) && c != LF ==> Plain(line + [c]))
  {
  }

  lemma StatusBetween(lines: seq<Line>, line: seq<Byte>, c: Byte)
    ensures StatusOf(lines, line + [c]) in {READ_HEADER, ONE_CR, TWO_CR}
  {
  }

  lemma StatusAtLineStart(lines: seq<Line>)
    ensures lines != [] ==> StatusOf(lines, []) == ONE_LF
  {
  }

  // ----- Any division into packets ---------------------------------------------------

  /** Later bytes do not change what has been read; an unfinished line is read again from its start. */
  lemma {:induction false} ReadPrefix(a: seq<Byte>, b: seq<Byte>, i: nat, lines: seq<Line>, h: Handler)
    requires i <= |a|
    ensures var r := Read(a, i, lines, h);
            Read(a + b, i, lines, h) == if r.outcome == Reading then Read(a + b, r.start, r.lines, h) else r
    decreases |a| - i
  {
    hide Read, Strip, Legal, Stop;
    var p := Stop(a, i);
    ReadAt(a, i, p, lines, h);
    assert (a + b)[i..p] == a[i..p];
    ReadAt(a + b, i, p, lines, h);
    if p < |a| && a[p] == LF {
      ReadPrefix(a, b, p + 1, lines + [Strip(a[i..p])], h);
    }
  }

  // ----- Pipelined requests -----------------------------------------------------------

  /** No step loses, duplicates or reorders a byte: what was received and the bytes `x` still to
      come hold the same requests as the completed ones and the buffer followed by `x`. */
  lemma StepLaw(s: Session, e: Event, h: Handler, x: seq<Byte>)
    requires Good(s, h)
    ensures Good(Step(s, e, h), h)
    ensures var s' := Step(s, e, h);
            s.done + Requests(s.buf + (BytesOf(e) + x), h) == s'.done + Requests(s'.buf + x, h)
  {
    hide Read, Requests;
    var s' := Step(s, e, h);
    match e {
      case Packet(bytes) =>
        assert s.buf + (bytes + x) == s'.buf + x;
        PacketKeepsGood(s, bytes, h);
      case Scanned =>
        assert [] + x == x;
        ScanKeepsGood(s, h);
      case Restarted =>
        assert [] + x == x;
        if s.at.outcome == Ended {
          RequestsFirst(s.buf, x, h);
          RestartKeepsGood(s'.buf, h);
          assert s.done + ([s.at.lines] + Requests(s'.buf + x, h)) == s'.done + Requests(s'.buf + x, h);
        }
    }
  }

  lemma PacketKeepsGood(s: Session, bytes: seq<Byte>, h: Handler)
    requires Good(s, h)
    ensures Good(Step(s, Packet(bytes), h), h)
  {
    hide Read;
    ReadPrefix(s.buf, bytes, 0, [], h);
    if s.at.outcome == Reading {
      ReadPrefix(s.buf, bytes, s.at.start, s.at.lines, h);
    }
  }

  lemma ScanKeepsGood(s: Session, h: Handler)
    requires Good(s, h)
    ensures Good(Step(s, Scanned, h), h)
  {
    hide Read;
    if s.at.outcome == Reading {
      ReadPrefix(s.buf, [], s.at.start, s.at.lines, h);
      assert s.buf + [] == s.buf;
    }
  }

  lemma RestartKeepsGood(buf: seq<Byte>, h: Handler)
    ensures Read(buf, 0, [], h) == Read(buf, NEW.start, NEW.lines, h)
  {
  }

  lemma RequestsFirst(buf: seq<Byte>, x: seq<Byte>, h: Handler)
    ensures var r := Read(buf, 0, [], h);
            r.outcome == Ended ==> Requests(buf + x, h) == [r.lines] + Requests(buf[r.pos..] + x, h)
  {
    hide Read;
    ReadPrefix(buf, x, 0, [], h);
    var r := Read(buf, 0, [], h);
    if r.outcome == Ended {
      assert (buf + x)[r.pos..] == buf[r.pos..] + x;
    }
  }

  function Run(s: Session, events: seq<Event>, h: Handler): Session
    requires Good(s, h)
    decreases |events|
  {
    if events == [] then s else Run(Next(s, events[0], h), events[1..], h)
  }

  function Next(s: Session, e: Event, h: Handler): (r: Session)
    requires Good(s, h)
    ensures r == Step(s, e, h) && Good(r, h)
  {
    StepLaw(s, e, h, []);
    Step(s, e, h)
  }

  function Received(events: seq<Event>): seq<Byte> {
    if events == [] then [] else BytesOf(events[0]) + Received(events[1..])
  }

  lemma {:induction false} RunLaw(s: Session, events: seq<Event>, h: Handler, x: seq<Byte>)
    requires Good(s, h)
    ensures Good(Run(s, events, h), h)
    ensures var s' := Run(s, events, h);
            s.done + Requests(s.buf + (Received(events) + x), h) == s'.done + Requests(s'.buf + x, h)
    decreases |events|
  {
    hide Read, Requests, Good, Step, BytesOf;
    if events == [] {
      assert [] + x == x;
    } else {
      var e, rest := events[0], events[1..];
      StepLaw(s, e, h, Received(rest) + x);
      RunLaw(Next(s, e, h), rest, h, x);
      assert BytesOf(e) + (Received(rest) + x) == Received(events) + x;
    }
  }

  /** However the stream is cut into packets and whenever it is scanned: the requests of the
      stream, each read alone, are the completed ones and those that wait in the buffer. */
  lemma AnyPackets(events: seq<Event>, h: Handler)
    ensures Good(FRESH, h)
    ensures var s := Run(FRESH, events, h);
            Requests(Received(events), h) == s.done + Requests(s.buf, h)
  {
    hide Read, Requests, Run;
    RestartKeepsGood([], h);
    RunLaw(FRESH, events, h, []);
    var s := Run(FRESH, events, h);
    assert [] + (Received(events) + []) == Received(events) && s.buf + [] == s.buf;
  }

  // ----- Reading undoes writing -------------------------------------------------------

  function Crs(n: nat): (r: seq<Byte>)
    ensures |r| == n && forall k :: 0 <= k < n ==> r[k] == 13
  {
    if n == 0 then [] else Crs(n - 1) + [13]
  }

  /** A byte that may stand in a line: a tab, a carriage return, or one from the space to 127. */
  predicate InLine(c: Byte) { c == 9 || c == 13 || 32 <= c <= 127 }

  /** A line without its carriage returns at the end. */
  ghost predicate TextLine(line: Line) {
    (forall k :: 0 <= k < |line| ==> InLine(line[k])) && (line == [] || line[|line| - 1] != 13)
  }

  /** A line as `read_header` may emit it. */
  ghost predicate GoodLine(line: Line) { TextLine(line) && |line| <= 1535 }

  /** A header: lines, each with the number of carriage returns before its line feed, and the
      carriage returns of the empty line. */
  datatype Header = Header(lines: seq<Line>, crs: seq<nat>, last: nat)

  ghost predicate GoodHeader(m: Header) {
    && m.lines != [] && |m.crs| == |m.lines|
    && (forall k :: 0 <= k < |m.lines| ==> GoodLine(m.lines[k]))
    && (forall k :: 0 < k < |m.lines| ==> m.lines[k] != [])
  }

  /** The text of a header from line `k` on. */
  function TextFrom(m: Header, k: nat): seq<Byte>
    requires k <= |m.lines|
    decreases |m.lines| - k
  {
    if k == |m.lines| then Crs(m.last) + [10]
    else m.lines[k] + Crs(if k < |m.crs| then m.crs[k] else 0) + [10] + TextFrom(m, k + 1)
  }

  lemma {:induction false} StripCrs(line: Line, n: nat)
    requires Strip(line) == line
    ensures Strip(line + Crs(n)) == line
  {
    if n == 0 {
      assert line + Crs(0) == line;
    } else {
      StripCrs(line, n - 1);
      assert line + Crs(n) == (line + Crs(n - 1)) + [CR];
      StripSnoc(line + Crs(n - 1), CR);
    }
  }

  lemma TextIsPlain(line: Line, n: nat)
    requires TextLine(line)
    ensures Plain(line + Crs(n)) && Strip(line) == line
  {
  }

  /** One written line is read as one line, and ends the header if it is an empty one behind the
      first, or more than 1535 bytes long, or not accepted. */
  lemma ReadWritten(before: seq<Byte>, line: Line, n: nat, after: seq<Byte>, lines: seq<Line>, h: Handler)
    requires TextLine(line)
    ensures var s := before + (line + Crs(n) + [10] + after);
            var r, p, more := Read(s, |before|, lines, h), |s| - |after|, lines + [line];
            if lines != [] && line == [] then r == Parse(Ended, lines, p, p)
            else if |line| > 1535 then r == Parse(TooLong, lines, p, |before|)
            else match h(more)
              case Refuse => r == Parse(Refused, more, p, |before|)
              case Simple => r == if lines == [] then Parse(SimpleRequest, more, p, |before|) else Read(s, p, more, h)
              case Accept => r == Read(s, p, more, h)
  {
    hide Strip, Read, Crs, Plain, TextLine;
    var text := line + Crs(n);
    var s := before + (text + [10] + after);
    var i, p := |before|, |before| + |text|;
    assert s[i..p] == text;
    assert s[p] == 10;
    TextIsPlain(line, n);
    StripCrs(line, n);
    ReadAt(s, i, p, lines, h);
  }

  /** Reading up to the first byte that may not stand in a header: if the bytes before it do not end
      the reading, it does, as an illegal one, at its position; nothing else is illegal. */
  lemma {:induction false} IllegalExactly(s: seq<Byte>, i: nat, p: nat, lines: seq<Line>, h: Handler)
    requires i <= p <= |s| && (p < |s| ==> s[p] != 10 && !InLine(s[p]))
    requires forall k :: i <= k < p ==> s[k] == 10 || InLine(s[k])
    ensures var q := Read(s[..p], i, lines, h);
            Read(s, i, lines, h) == (if q.outcome == Reading && p < |s| then Parse(Illegal, q.lines, p, q.start) else q)
            && q.outcome != Illegal
    decreases p - i
  {
    hide Read, Strip;
    var e := Stop(s, i);
    StopPlain(s, i);
    assert e <= p && s[..p][i..e] == s[i..e];
    ReadAt(s, i, e, lines, h);
    ReadAt(s[..p], i, e, lines, h);
    if e < p {
      assert s[..p][e] == s[e] == 10;
      IllegalExactly(s, e + 1, p, lines + [Strip(s[i..e])], h);
    }
  }

  predicate AcceptsAll(h: Handler, lines: seq<Line>) {
    forall k :: 0 < k <= |lines| ==> h(lines[..k]) == Accept
  }

  lemma {:induction false} ReadHeaderText(before: seq<Byte>, m: Header, k: nat, rest: seq<Byte>, h: Handler)
    requires GoodHeader(m) && k <= |m.lines| && AcceptsAll(h, m.lines)
    ensures var s := before + TextFrom(m, k) + rest;
            Read(s, |before|, m.lines[..k], h) == Parse(Ended, m.lines, |s| - |rest|, |s| - |rest|)
    decreases |m.lines| - k
  {
    hide Read, Strip, Crs, TextLine;
    var s := before + TextFrom(m, k) + rest;
    if k == |m.lines| {
      assert m.lines[..k] == m.lines;
      assert s == before + (Crs(m.last) + [10] + rest);
      ReadBlank(before, m.last, rest, m.lines, h);
    } else {
      var line := m.lines[k];
      var written := line + Crs(m.crs[k]) + [10];
      assert s == before + (written + (TextFrom(m, k + 1) + rest));
      assert m.lines[..k] + [line] == m.lines[..k + 1];
      assert GoodLine(line) && h(m.lines[..k + 1]) == Accept;
      ReadWritten(before, line, m.crs[k], TextFrom(m, k + 1) + rest, m.lines[..k], h);
      assert s == (before + written) + TextFrom(m, k + 1) + rest;
      ReadHeaderText(before + written, m, k + 1, rest, h);
    }
  }

  lemma ReadBlank(before: seq<Byte>, n: nat, after: seq<Byte>, lines: seq<Line>, h: Handler)
    requires lines != []
    ensures var s := before + (Crs(n) + [10] + after);
            Read(s, |before|, lines, h) == Parse(Ended, lines, |s| - |after|, |s| - |after|)
  {
    hide Read;
    var s := before + (Crs(n) + [10] + after);
    var i, p := |before|, |before| + n;
    assert s[i..p] == Crs(n);
    assert s[p] == 10;
    StripCrs([], n);
    assert [] + Crs(n) == Crs(n);
    ReadAt(s, i, p, lines, h);
  }

  function Texts(ms: seq<Header>): seq<Byte> {
    if ms == [] then [] else TextFrom(ms[0], 0) + Texts(ms[1..])
  }

  function LinesOf(ms: seq<Header>): seq<seq<Line>> {
    if ms == [] then [] else [ms[0].lines] + LinesOf(ms[1..])
  }

  /** Pipelining: a stream of body-less requests is read back as the line lists of its requests,
      each as if it had been sent alone. */
  lemma {:induction false} PipelineReadBack(ms: seq<Header>, h: Handler)
    requires forall k :: 0 <= k < |ms| ==> GoodHeader(ms[k]) && AcceptsAll(h, ms[k].lines)
    ensures Requests(Texts(ms), h) == LinesOf(ms)
  {
    hide Read, GoodLine, AcceptsAll;
    if ms == [] {
      NothingToRead(h);
    } else {
      var m, rest := ms[0], Texts(ms[1..]);
      ReadHeaderText([], m, 0, rest, h);
      assert [] + TextFrom(m, 0) + rest == Texts(ms);
      assert m.lines[..0] == [];
      assert Texts(ms)[|Texts(ms)| - |rest|..] == rest;
      PipelineReadBack(ms[1..], h);
    }
  }

  lemma NothingToRead(h: Handler)
    ensures Read([], 0, [], h) == Parse(Reading, [], 0, 0)
  {
  }

  // ----- Connections over whole runs ----------------------------------------------------

  /** A connection, and whether it is still open. */
  datatype Link = Link(s: Session, open: bool)

  const OPENED := Link(FRESH, true)

  /** One call of `read_header`, and `sanitize_request` if it ends a request. */
  function Called(s: Session, net: Net, h: Handler): (r: Link)
    requires Good(s, h)
    ensures Good(r.s, h)
  {
    var scanned := Next(s, Scanned, h);
    if scanned.at.outcome == Ended then Link(Next(scanned, Restarted, h), true)
    else if scanned.at.outcome != Reading || |scanned.buf| >= CLIENT_STREAM_SIZE then Link(scanned, false)
    else Link(Next(scanned, Packet(Arrived(net, CLIENT_STREAM_SIZE - |scanned.buf|)), h), !Hangup(net))
  }

  /** The bytes such a call takes from the socket. */
  function TakenBy(s: Session, net: Net, h: Handler): seq<Byte>
    requires Good(s, h)
  {
    var scanned := Next(s, Scanned, h);
    if scanned.at.outcome == Reading && |scanned.buf| < CLIENT_STREAM_SIZE
    then Arrived(net, CLIENT_STREAM_SIZE - |scanned.buf|) else []
  }

  function Calls(l: Link, nets: seq<Net>, h: Handler): Link
    requires Good(l.s, h)
    decreases |nets|
  {
    if !l.open || nets == [] then l else Calls(Called(l.s, nets[0], h), nets[1..], h)
  }

  function Taken(l: Link, nets: seq<Net>, h: Handler): seq<Byte>
    requires Good(l.s, h)
    decreases |nets|
  {
    if !l.open || nets == [] then []
    else TakenBy(l.s, nets[0], h) + Taken(Called(l.s, nets[0], h), nets[1..], h)
  }

  lemma CallLaw(s: Session, net: Net, h: Handler, x: seq<Byte>)
    requires Good(s, h)
    ensures var s' := Called(s, net, h).s;
            s.done + Requests(s.buf + (TakenBy(s, net, h) + x), h) == s'.done + Requests(s'.buf + x, h)
  {
    hide Read, Requests, Good;
    var scanned := Next(s, Scanned, h);
    var bytes := TakenBy(s, net, h);
    StepLaw(s, Scanned, h, bytes + x);
    assert [] + (bytes + x) == bytes + x && [] + x == x;
    if scanned.at.outcome == Ended {
      StepLaw(scanned, Restarted, h, x);
    } else if scanned.at.outcome == Reading && |scanned.buf| < CLIENT_STREAM_SIZE {
      StepLaw(scanned, Packet(bytes), h, x);
    }
  }

  /** However long a connection lives and whatever its socket answers: the requests in the bytes it
      took, each read alone, are those it has completed and those that wait in its buffer. */
  lemma {:induction false} ConnectionLaw(l: Link, nets: seq<Net>, h: Handler)
    requires Good(l.s, h)
    ensures var r := Calls(l, nets, h);
            l.s.done + Requests(l.s.buf + Taken(l, nets, h), h) == r.s.done + Requests(r.s.buf, h)
    decreases |nets|
  {
    hide Read, Requests, Good, Called, TakenBy;
    if !l.open || nets == [] {
      assert l.s.buf + [] == l.s.buf;
    } else {
      var next := Called(l.s, nets[0], h);
      ConnectionLaw(next, nets[1..], h);
      CallLaw(l.s, nets[0], h, Taken(next, nets[1..], h));
    }
  }

  /** A header that does not end in `a` ends behind it. */
  lemma {:induction false} EndsBehind(a: seq<Byte>, b: seq<Byte>, i: nat, lines: seq<Line>, h: Handler)
    requires i <= |a| && Read(a, i, lines, h).outcome == Reading && Read(a + b, i, lines, h).outcome == Ended
    ensures Read(a + b, i, lines, h).pos > |a|
    decreases |a| - i
  {
    hide Read, Strip, Legal, Stop, Plain;
    var p := Stop(a, i);
    StopPlain(a, i);
    ReadAt(a, i, p, lines, h);
    assert (a + b)[i..p] == a[i..p];
    ReadAt(a + b, i, p, lines, h);
    if p < |a| && a[p] == LF {
      EndsBehind(a, b, p + 1, lines + [Strip(a[i..p])], h);
    } else {
      EndsAfter(a + b, i, lines, h);
      StopLater(a, b, i);
    }
  }

  lemma EndsAfter(s: seq<Byte>, i: nat, lines: seq<Line>, h: Handler)
    requires i <= |s| && Read(s, i, lines, h).outcome == Ended
    ensures Read(s, i, lines, h).pos > Stop(s, i)
  {
  }

  lemma {:induction false} StopLater(a: seq<Byte>, b: seq<Byte>, i: nat)
    requires i <= |a| && Stop(a, i) == |a|
    ensures Stop(a + b, i) >= |a|
    decreases |a| - i
  {
    if i < |a| {
      StopLater(a, b, i + 1);
    }
  }

  /** Exactly when the size of the buffer closes a connection whose request would end after the
      bytes `x` still to come: the buffer is full and the header ends behind it. */
  lemma ClosedByBufferExactly(s: Session, net: Net, x: seq<Byte>, h: Handler)
    requires Good(s, h) && s.at.outcome == Reading && !Hangup(net)
    requires Read(s.buf + x, 0, [], h).outcome == Ended
    ensures !Called(s, net, h).open
            <==> |s.buf| >= CLIENT_STREAM_SIZE && Read(s.buf + x, 0, [], h).pos > |s.buf|
  {
    hide Read;
    ReadPrefix(s.buf, x, 0, [], h);
    if Read(s.buf, 0, [], h).outcome == Reading {
      EndsBehind(s.buf, x, 0, [], h);
    }
    ScannedIsRead(s, h);
  }

  lemma ScannedIsRead(s: Session, h: Handler)
    requires Good(s, h) && s.at.outcome == Reading
    ensures Next(s, Scanned, h).at == Read(s.buf, 0, [], h) && Next(s, Scanned, h).buf == s.buf
    ensures Next(s, Scanned, h).done == s.done && Read(s.buf, 0, [], h).pos <= |s.buf|
  {
  }

  // ----- Pipelining over whole runs -----------------------------------------------------

  /** After the first `|s.done|` of the requests `ms`, what is in the buffer and the bytes `x` still to
      come are the others. */
  ghost predicate OnTrack(s: Session, ms: seq<Header>, x: seq<Byte>, h: Handler) {
    && Good(s, h) && s.at.outcome == Reading
    && |s.done| <= |ms| && s.done == LinesOf(ms[..|s.done|]) && s.buf + x == Texts(ms[|s.done|..])
  }

  /** Requests of which each fits the stream buffer. */
  ghost predicate Served(ms: seq<Header>, h: Handler) {
    forall m <- ms :: GoodHeader(m) && AcceptsAll(h, m.lines) && |TextFrom(m, 0)| <= 8192
  }

  lemma {:induction false} LinesOfSnoc(ms: seq<Header>, m: Header)
    ensures LinesOf(ms + [m]) == LinesOf(ms) + [m.lines]
  {
    if ms == [] {
      assert [] + [m] == [m] && [m][1..] == [];
    } else {
      assert (ms + [m])[1..] == ms[1..] + [m];
      LinesOfSnoc(ms[1..], m);
    }
  }

  lemma FirstRead(m: Header, rest: seq<Byte>, h: Handler)
    requires GoodHeader(m) && AcceptsAll(h, m.lines)
    ensures var n := |TextFrom(m, 0)|; Read(TextFrom(m, 0) + rest, 0, [], h) == Parse(Ended, m.lines, n, n)
  {
    hide Read, GoodHeader, AcceptsAll, TextFrom;
    assert [] + TextFrom(m, 0) + rest == TextFrom(m, 0) + rest && m.lines[..0] == [];
    ReadHeaderText([], m, 0, rest, h);
  }

  /** The next request of a stream, read from the bytes that are there. */
  lemma NextRequest(buf: seq<Byte>, x: seq<Byte>, m: Header, rest: seq<Byte>, h: Handler)
    requires GoodHeader(m) && AcceptsAll(h, m.lines) && buf + x == TextFrom(m, 0) + rest
    ensures var r, n := Read(buf, 0, [], h), |TextFrom(m, 0)|;
            if n <= |buf| then r == Parse(Ended, m.lines, n, n) && buf[n..] + x == rest
            else r.outcome == Reading
  {
    hide Read, GoodHeader, AcceptsAll, TextFrom;
    var text := TextFrom(m, 0);
    ReadWithin(buf, h);
    FirstRead(m, rest, h);
    ReadPrefix(buf, x, 0, [], h);
    if Read(buf, 0, [], h).outcome == Reading {
      EndsBehind(buf, x, 0, [], h);
    } else {
      Behind(buf, x, text, rest);
    }
  }

  lemma Behind(a: seq<Byte>, b: seq<Byte>, c: seq<Byte>, d: seq<Byte>)
    requires a + b == c + d && |c| <= |a|
    ensures a[|c|..] + b == d
  {
    assert (a + b)[|c|..] == d;
  }

  lemma ReadWithin(buf: seq<Byte>, h: Handler)
    ensures Read(buf, 0, [], h).pos <= |buf|
  {
  }

  lemma TextsFrom(ms: seq<Header>, k: nat)
    requires k <= |ms|
    ensures Texts(ms[k..]) == if k == |ms| then [] else TextFrom(ms[k], 0) + Texts(ms[k + 1..])
  {
    assert k < |ms| ==> ms[k..][1..] == ms[k + 1..];
  }

  lemma NoRequest(buf: seq<Byte>, h: Handler)
    requires buf == []
    ensures Read(buf, 0, [], h).outcome == Reading
  {
  }

  /** One call keeps to the stream, completes a request exactly when all of it is in the buffer, and
      leaves the connection open. */
  lemma CallOnTrack(s: Session, net: Net, ms: seq<Header>, x: seq<Byte>, h: Handler)
    requires Good(s, h) && Served(ms, h) && OnTrack(s, ms, TakenBy(s, net, h) + x, h)
    ensures var r, k := Called(s, net, h), |s.done|;
            && OnTrack(r.s, ms, x, h) && (!Hangup(net) ==> r.open)
            && |r.s.done| == if k < |ms| && |TextFrom(ms[k], 0)| <= |s.buf| then k + 1 else k
  {
    hide Read, Good, GoodHeader, AcceptsAll, TextFrom, Texts, LinesOf;
    var k, bytes := |s.done|, TakenBy(s, net, h);
    ScannedIsRead(s, h);
    TextsFrom(ms, k);
    if k == |ms| {
      assert s.buf == [];
      NoRequest(s.buf, h);
    } else {
      var m, rest := ms[k], Texts(ms[k + 1..]);
      assert m in ms;
      NextRequest(s.buf, bytes + x, m, rest, h);
      assert ms[..k + 1] == ms[..k] + [m];
      LinesOfSnoc(ms[..k], m);
      assert [] + x == x;
    }
    assert (s.buf + bytes) + x == s.buf + (bytes + x);
  }

  lemma {:induction false} CallsOnTrack(l: Link, nets: seq<Net>, ms: seq<Header>, x: seq<Byte>, h: Handler)
    requires Good(l.s, h) && Served(ms, h) && OnTrack(l.s, ms, Taken(l, nets, h) + x, h)
    ensures var r := Calls(l, nets, h);
            && OnTrack(r.s, ms, x, h) && |r.s.done| >= |l.s.done|
            && (l.open && (forall net <- nets :: !Hangup(net)) ==>
                  r.open && (Taken(l, nets, h) + x == [] ==> |r.s.done| >= Min(|ms|, |l.s.done| + |nets|)))
    decreases |nets|
  {
    hide Read, Good, Served, Called, TakenBy, OnTrack;
    OnTrackReading(l.s, ms, Taken(l, nets, h) + x, h);
    if !l.open || nets == [] {
      assert [] + x == x;
      OnTrackBounds(l.s, ms, x, h);
    } else {
      var next, bytes := Called(l.s, nets[0], h), TakenBy(l.s, nets[0], h);
      var later := Taken(next, nets[1..], h);
      assert (bytes + later) + x == bytes + (later + x);
      CallOnTrack(l.s, nets[0], ms, later + x, h);
      CallsOnTrack(next, nets[1..], ms, x, h);
      if bytes + (later + x) == [] {
        Buffered(l.s, ms, h);
      }
    }
  }

  lemma OnTrackReading(s: Session, ms: seq<Header>, x: seq<Byte>, h: Handler)
    requires OnTrack(s, ms, x, h)
    ensures s.at.outcome == Reading && |s.done| <= |ms|
  {
  }

  lemma OnTrackBounds(s: Session, ms: seq<Header>, x: seq<Byte>, h: Handler)
    requires OnTrack(s, ms, x, h)
    ensures |s.done| <= |ms|
  {
  }

  /** When nothing is still to come, the next request is in the buffer. */
  lemma Buffered(s: Session, ms: seq<Header>, h: Handler)
    requires OnTrack(s, ms, [], h)
    ensures |s.done| < |ms| ==> |TextFrom(ms[|s.done|], 0)| <= |s.buf|
  {
    hide TextFrom;
    if |s.done| < |ms| {
      assert s.buf + [] == s.buf && ms[|s.done|..][1..] == ms[|s.done| + 1..];
    }
  }

  /** Pipelining on the recogniser's own runs: requests each of which fits the stream buffer, sent in
      one stream and cut into packets in any way, are completed in order, each with the lines it has
      when read alone; what is in the buffer is the beginning of the others; the buffer never
      closes the connection; and once the stream has arrived, one call completes one request. */
  lemma PipelineServed(ms: seq<Header>, nets: seq<Net>, h: Handler)
    requires Served(ms, h) && Good(FRESH, h) && Taken(OPENED, nets, h) <= Texts(ms)
    ensures var r, taken := Calls(OPENED, nets, h), Taken(OPENED, nets, h);
            var k := |r.s.done|;
            && k <= |ms| && r.s.done == LinesOf(ms[..k]) && r.s.buf + Texts(ms)[|taken|..] == Texts(ms[k..])
            && ((forall net <- nets :: !Hangup(net)) ==> r.open)
  {
    hide Read, Good, Served, Taken, Calls;
    var taken := Taken(OPENED, nets, h);
    assert taken + Texts(ms)[|taken|..] == Texts(ms) == [] + Texts(ms);
    FreshOnTrack(ms, h);
    CallsOnTrack(OPENED, nets, ms, Texts(ms)[|taken|..], h);
  }

  lemma FreshOnTrack(ms: seq<Header>, h: Handler)
    ensures OnTrack(FRESH, ms, Texts(ms), h)
  {
    RestartKeepsGood([], h);
    assert ms[..0] == [] && ms[0..] == ms && [] + Texts(ms) == Texts(ms);
  }

  /** When the stream has arrived, as many further calls as there are requests left complete all. */
  lemma PipelineCompletes(ms: seq<Header>, s: Session, nets: seq<Net>, h: Handler)
    requires Good(s, h) && Served(ms, h) && OnTrack(s, ms, [], h)
    requires Taken(Link(s, true), nets, h) == [] && (forall net <- nets :: !Hangup(net)) && |nets| >= |ms| - |s.done|
    ensures Calls(Link(s, true), nets, h).s.done == LinesOf(ms)
  {
    hide Read, Good, Served, Taken, Calls;
    var none: seq<Byte> := [];
    assert none + none == none;
    CallsOnTrack(Link(s, true), nets, ms, [], h);
    OnTrackBounds(Calls(Link(s, true), nets, h).s, ms, [], h);
    assert ms[..|ms|] == ms;
  }
}
