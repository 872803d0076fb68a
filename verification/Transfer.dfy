/** Sending a response body: the output buffer (src/buffer.c:36-62, 213-257), the multipart texts
    and the end of a range (src/response.c:47-63, 115-172), the buffered copy (src/pipe.c:268-369),
    and the mapped file (src/get.c:396-532). Bytes are characters here. */
module Transfer {
  import opened Commons
  import opened RangeSyntax

  const RESERVE := 256
  const CRLF := "\r\n"

  // ----- What does not change during a response -----------------------------------------

  /** `head` is a HEAD request; `multipart` is a 206 response to more than one range. */
  datatype Job = Job(head: bool, multipart: bool, file: string, mime: Option<string>, charset: Option<string>)

  /** `strncasecmp(mime_type, "text", 4) == 0` */
  predicate IsText(mime: string) {
    |mime| >= 4 && Lower(mime[0]) == 't' && Lower(mime[1]) == 'e' && Lower(mime[2]) == 'x' && Lower(mime[3]) == 't'
  }

  const SEPARATOR := CRLF + "--THIS_STRING_SEPARATES" + CRLF
  const TRAILER := CRLF + "--THIS_STRING_SEPARATES--" + CRLF

  /** The texts `print_content_type` writes, one by one. */
  function ContentType(job: Job): seq<string> {
    if job.mime.None? then []
    else
      ["Content-Type: ", job.mime.value]
      + (if job.charset.Some? && IsText(job.mime.value) then ["; charset=", job.charset.value] else [])
      + [CRLF]
  }

  function ContentRange(job: Job, r: Spec): seq<string>
    requires 0 <= r.start && 0 <= r.stop
  {
    ["Content-Range: bytes ", Digits(r.start), "-", Digits(r.stop), "/", Digits(|job.file|), CRLF]
  }

  /** What goes before the next part: `print_partial_content_continue` and the final CRLF. */
  function PartHeader(job: Job, r: Spec): seq<string>
    requires 0 <= r.start && 0 <= r.stop
  {
    [SEPARATOR] + ContentType(job) + ContentRange(job, r) + [CRLF]
  }

  function Flat(texts: seq<string>): string {
    if texts == [] then "" else Flat(texts[..|texts| - 1]) + texts[|texts| - 1]
  }

  // ----- The state ------------------------------------------------------------------------

  datatype Status = Transferring | Done | Dead

  /** `ranges` are still to be sent, the first from its current `start`; `pending` is what the
      buffer holds between its two indexes, of which `bufferEnd` is the second; `wire` is what the
      socket has accepted, and `produced` everything written to buffer or socket, in that order. */
  datatype Send = Send(ranges: seq<Spec>, pending: string, bufferEnd: nat, status: Status, fileOpen: bool,
                       wire: string, produced: string)

  /** What `write` on the socket and `read` on the file answer; reading 0 bytes is end of file. */
  datatype Sock = Sent(count: nat) | SockBlocked | Broken
  datatype Disk = Bytes(count: nat) | DiskBlocked | DiskFailed

  /** A range inside the file of which a part may have been sent. */
  predicate Fits(job: Job, r: Spec) { 0 <= r.start <= r.stop + 1 <= |job.file| && 0 <= r.stop }

  predicate AllFit(job: Job, ranges: seq<Spec>) {
    forall i {:trigger ranges[i]} :: 0 <= i < |ranges| ==> Fits(job, ranges[i])
  }

  predicate Sound(job: Job, s: Send) {
    && |s.pending| <= s.bufferEnd <= BUFFER_SIZE
    && AllFit(job, s.ranges)
    && (!job.multipart ==> |s.ranges| <= 1)
  }

  // ----- Buffer ---------------------------------------------------------------------------

  /** `req_write` */
  function ReqWrite(s: Send, msg: string): Send {
    if msg == "" || s.status == Dead then s
    else if s.bufferEnd + |msg| > BUFFER_SIZE then s.(status := Dead)
    else s.(pending := s.pending + msg, bufferEnd := s.bufferEnd + |msg|, produced := s.produced + msg)
  }

  function WriteAll(s: Send, texts: seq<string>): Send {
    if texts == [] then s else ReqWrite(WriteAll(s, texts[..|texts| - 1]), texts[|texts| - 1])
  }

  /** `req_flush`: -2 for an error, -1 when blocked, otherwise the end of the buffer. */
  function ReqFlush(s: Send, w: Sock): (r: (Send, int))
    requires |s.pending| <= s.bufferEnd
    ensures |r.0.pending| <= r.0.bufferEnd <= s.bufferEnd && r.0.ranges == s.ranges
  {
    if s.status == Dead then (s, -2)
    else if s.pending == "" then (s.(bufferEnd := 0), 0)
    else match w
      case SockBlocked => (s, -1)
      case Broken => (s.(pending := "", bufferEnd := 0, status := Dead), -2)
      case Sent(count) =>
        var k := Min(count, |s.pending|);
        var left := s.pending[k..];
        var end := if left == "" then 0 else s.bufferEnd;
        (s.(wire := s.wire + s.pending[..k], pending := left, bufferEnd := end), end)
  }

  // ----- The end of a request -------------------------------------------------------------

  /** A response under way, or one whose request has been freed. */
  datatype Course = Course(s: Send, over: bool)

  /** What `free_request` does to the buffer: a live request is flushed once more, and kept only if
      that was short; a dead one loses what it holds. */
  function Freed(s: Send, last: Sock): Course
    requires |s.pending| <= s.bufferEnd
  {
    if s.bufferEnd > 0 && s.status != Dead then
      var f := ReqFlush(s.(status := Done), last);
      Course(f.0, f.1 <= 0)
    else Course(s, true)
  }

  // ----- The end of a range ---------------------------------------------------------------

  /** `complete_response` */
  function CompleteResponse(job: Job, s: Send, w: Sock): (Send, int)
    requires s.ranges != [] && Sound(job, s)
  {
    var popped := s.(ranges := s.ranges[1..]);
    if job.multipart then
      if popped.ranges != [] then (WriteAll(popped, PartHeader(job, popped.ranges[0])), 1)
      else
        var closed := ReqWrite(popped, TRAILER).(status := Done);
        (ReqFlush(closed, w).0, 1)
    else (popped.(status := Done), 0)
  }

  /** The bytes of the first range that are still to come. */
  function Body(job: Job, r: Spec): string
    requires Fits(job, r)
  {
    if job.head then "" else job.file[r.start..r.stop + 1]
  }

  /** What a response still has to produce after the body of its first range. */
  function After(job: Job, ranges: seq<Spec>): string
    requires AllFit(job, ranges)
  {
    if !job.multipart || ranges == [] then ""
    else if |ranges| == 1 then TRAILER
    else Flat(PartHeader(job, ranges[1])) + (Body(job, ranges[1]) + After(job, ranges[1..]))
  }

  /** Everything a response still has to produce. */
  function Remaining(job: Job, s: Send): string
    requires Sound(job, s)
  {
    if s.ranges == [] then "" else Body(job, s.ranges[0]) + After(job, s.ranges)
  }

  /** The whole response: constant as long as nothing is lost. */
  function Whole(job: Job, s: Send): string
    requires Sound(job, s)
  {
    s.produced + Remaining(job, s)
  }

  /** The client sees the bytes in the order in which they were produced. */
  predicate InOrder(s: Send) { s.produced == s.wire + s.pending }

  /** The text a completed first range is followed by. */
  function Next(job: Job, ranges: seq<Spec>): string
    requires ranges != [] && AllFit(job, ranges)
  {
    if !job.multipart then "" else if |ranges| == 1 then TRAILER else Flat(PartHeader(job, ranges[1]))
  }

  // ----- Laws of the buffer ---------------------------------------------------------------

  /** Texts that fit are appended; otherwise the request is dead. */
  lemma {:induction false} WriteAllLaw(s: Send, texts: seq<string>)
    requires s.status != Dead && s.bufferEnd <= BUFFER_SIZE
    ensures var r, text := WriteAll(s, texts), Flat(texts);
            if s.bufferEnd + |text| <= BUFFER_SIZE then
              r == s.(pending := s.pending + text, bufferEnd := s.bufferEnd + |text|, produced := s.produced + text)
            else r.status == Dead
    ensures var r := WriteAll(s, texts);
            s.bufferEnd <= r.bufferEnd <= BUFFER_SIZE && r.bufferEnd - |r.pending| == s.bufferEnd - |s.pending|
            && r.ranges == s.ranges && |r.produced| - |s.produced| == r.bufferEnd - s.bufferEnd
            && r.wire == s.wire && s.produced <= r.produced
  {
    if texts == [] {
      assert s.pending + "" == s.pending && s.produced + "" == s.produced;
    } else {
      var init, last := texts[..|texts| - 1], texts[|texts| - 1];
      WriteAllLaw(s, init);
      assert s.pending + Flat(texts) == (s.pending + Flat(init)) + last;
      assert s.produced + Flat(texts) == (s.produced + Flat(init)) + last;
    }
  }

  lemma FlushLaw(job: Job, s: Send, w: Sock)
    requires Sound(job, s)
    ensures var r := ReqFlush(s, w).0;
            && Sound(job, r) && r.ranges == s.ranges && r.produced == s.produced
            && (InOrder(s) && r.status != Dead ==> InOrder(r))
            && (r.status == Dead <==> s.status == Dead || (s.pending != "" && w.Broken?))
            && (r.status != Dead ==> r.status == s.status)
            && (r.status == Dead ==> r.wire == s.wire)
  {
    if w.Sent? {
      var k := Min(w.count, |s.pending|);
      assert s.pending[..k] + s.pending[k..] == s.pending;
      assert s.wire + (s.pending[..k] + s.pending[k..]) == (s.wire + s.pending[..k]) + s.pending[k..];
    }
  }

  /** `r` has produced `text` after `s` and keeps the order of bytes. */
  ghost predicate Produces(s: Send, text: string, r: Send) {
    r.produced == s.produced + text && (InOrder(s) ==> InOrder(r))
  }

  lemma CompletePart(job: Job, s: Send, w: Sock)
    requires Sound(job, s) && s.status == Transferring && job.multipart && |s.ranges| > 1
    requires s.bufferEnd + |Next(job, s.ranges)| <= BUFFER_SIZE
    ensures var r := CompleteResponse(job, s, w).0;
            Sound(job, r) && Produces(s, Next(job, s.ranges), r) && r.status == Transferring && r.ranges == s.ranges[1..]
  {
    hide Flat, PartHeader, WriteAll;
    var popped := s.(ranges := s.ranges[1..]);
    WriteAllLaw(popped, PartHeader(job, popped.ranges[0]));
    var next := Next(job, s.ranges);
    assert s.wire + (s.pending + next) == (s.wire + s.pending) + next;
  }

  lemma CompleteLast(job: Job, s: Send, w: Sock)
    requires Sound(job, s) && s.status == Transferring && job.multipart && |s.ranges| == 1
    requires s.bufferEnd + |TRAILER| <= BUFFER_SIZE
    ensures var r := CompleteResponse(job, s, w).0;
            && Sound(job, r) && r.ranges == [] && r.produced == s.produced + TRAILER
            && (r.status == Done || (r.status == Dead && w.Broken?))
            && (InOrder(s) && r.status == Done ==> InOrder(r)) && (r.status == Dead ==> r.wire == s.wire)
  {
    hide ReqFlush;
    var closed := ReqWrite(s.(ranges := []), TRAILER).(status := Done);
    assert s.ranges[1..] == [];
    assert s.wire + (s.pending + TRAILER) == (s.wire + s.pending) + TRAILER;
    FlushLaw(job, closed, w);
  }

  /** Completing a range whose body is finished produces the text that comes next, provided it
      fits behind the end of the buffer. */
  lemma CompleteLaw(job: Job, s: Send, w: Sock)
    requires Sound(job, s) && s.status == Transferring && s.ranges != [] && Body(job, s.ranges[0]) == ""
    requires s.bufferEnd + |Next(job, s.ranges)| <= BUFFER_SIZE
    ensures var r := CompleteResponse(job, s, w).0;
            && Sound(job, r) && Whole(job, r) == Whole(job, s) && r.ranges == s.ranges[1..]
            && (r.status == Dead ==> w.Broken? && r.wire == s.wire && |s.produced| < |r.produced|)
            && (InOrder(s) && r.status != Dead ==> InOrder(r))
            && (r.ranges == [] <==> r.status != Transferring) && s.produced <= r.produced
  {
    hide Flat, PartHeader, Body, WriteAll, ReqFlush, ReqWrite;
    var next := Next(job, s.ranges);
    AfterIsNext(job, s.ranges);
    assert "" + After(job, s.ranges) == After(job, s.ranges);
    if !job.multipart {
      assert s.produced + "" == s.produced;
    } else if |s.ranges| > 1 {
      CompletePart(job, s, w);
      var rest := s.ranges[1..];
      assert (s.produced + next) + (Body(job, rest[0]) + After(job, rest)) == s.produced + (next + (Body(job, rest[0]) + After(job, rest)));
    } else {
      CompleteLast(job, s, w);
      assert (s.produced + TRAILER) + "" == s.produced + TRAILER;
    }
  }

  lemma AfterIsNext(job: Job, ranges: seq<Spec>)
    requires ranges != [] && AllFit(job, ranges) && (!job.multipart ==> |ranges| == 1)
    ensures AllFit(job, ranges[1..])
    ensures After(job, ranges)
         == Next(job, ranges) + if |ranges| > 1 then Body(job, ranges[1]) + After(job, ranges[1..]) else ""
  {
  }

  // ----- The buffered copy ----------------------------------------------------------------

  /** `n` bytes of the file go from the front of the first range into the buffer. */
  function Take(job: Job, s: Send, n: nat): Send
    requires s.ranges != [] && 0 <= s.ranges[0].start && s.ranges[0].start + n <= |job.file|
  {
    var r := s.ranges[0];
    var bytes := job.file[r.start..r.start + n];
    s.(pending := s.pending + bytes, bufferEnd := s.bufferEnd + n, produced := s.produced + bytes,
       ranges := [Spec(r.start + n, r.stop)] + s.ranges[1..])
  }

  /** The write at the end of `io_shuffle`. */
  function ShuffleWrite(s: Send, w: Sock): (Send, int) {
    if s.pending == "" then (if s.fileOpen then (s.(bufferEnd := 0), 1) else (s, 0))
    else match w
      case SockBlocked => (s, -1)
      case Broken => (s.(status := Dead), 0)
      case Sent(count) =>
        var k := Min(count, |s.pending|);
        var left := s.pending[k..];
        (s.(wire := s.wire + s.pending[..k], pending := left, bufferEnd := if left == "" then 0 else s.bufferEnd), 1)
  }

  /** How much of the file `io_shuffle` asks for: the last 256 bytes stay free. */
  function Wanted(s: Send): int
    requires s.ranges != []
  {
    Min(BUFFER_SIZE - s.bufferEnd - RESERVE, s.ranges[0].stop - s.ranges[0].start + 1)
  }

  /** `io_shuffle`: -1 blocked, 0 done, 1 more to do. Interrupted calls are made again. */
  function IoShuffle(job: Job, s: Send, d: Disk, w: Sock): (Send, int)
    requires Sound(job, s) && s.ranges != []
  {
    if job.head then CompleteResponse(job, s, w)
    else if Wanted(s) <= 0 || !s.fileOpen then ShuffleWrite(s, w)
    else match d
      case DiskFailed => (s.(status := Dead), 0)
      case DiskBlocked => if s.pending == "" then (s, -1) else ShuffleWrite(s, w)
      case Bytes(count) =>
        var n := Min(count, Wanted(s));
        if n == 0 then ShuffleWrite(s.(fileOpen := false), w)
        else Absorb(job, s, n, w)
  }

  /** `n` bytes have been read: the range is complete, or the buffer is written. */
  function Absorb(job: Job, s: Send, n: nat, w: Sock): (Send, int)
    requires Sound(job, s) && s.ranges != [] && !job.head
    requires s.ranges[0].start + n <= s.ranges[0].stop + 1 && s.bufferEnd + n <= BUFFER_SIZE
  {
    TakeLaw(job, s, n);
    var t := Take(job, s, n);
    if t.ranges[0].start == t.ranges[0].stop + 1 then CompleteResponse(job, t, w) else ShuffleWrite(t, w)
  }

  /** What comes after the first body does not depend on the first range. */
  lemma AfterSame(job: Job, a: seq<Spec>, b: seq<Spec>)
    requires AllFit(job, a) && AllFit(job, b) && a != [] && b != [] && a[1..] == b[1..]
    ensures After(job, a) == After(job, b) && Next(job, a) == Next(job, b)
  {
    hide Flat, PartHeader, Body;
    assert |a| == |b| && (|a| > 1 ==> a[1] == a[1..][0] && b[1] == b[1..][0]);
  }

  lemma BodySplit(job: Job, r: Spec, n: nat)
    requires Fits(job, r) && !job.head && r.start + n <= r.stop + 1
    ensures Body(job, r) == job.file[r.start..r.start + n] + Body(job, Spec(r.start + n, r.stop))
  {
  }

  lemma TakeLaw(job: Job, s: Send, n: nat)
    requires Sound(job, s) && s.ranges != [] && !job.head
    requires s.ranges[0].start + n <= s.ranges[0].stop + 1 && s.bufferEnd + n <= BUFFER_SIZE
    ensures var t := Take(job, s, n);
            && Sound(job, t) && Whole(job, t) == Whole(job, s) && (InOrder(s) ==> InOrder(t))
            && Next(job, t.ranges) == Next(job, s.ranges) && t.ranges[1..] == s.ranges[1..]
  {
    hide After, Next, Body;
    var r, t := s.ranges[0], Take(job, s, n);
    var bytes := job.file[r.start..r.start + n];
    assert t.ranges[1..] == s.ranges[1..];
    AfterSame(job, s.ranges, t.ranges);
    BodySplit(job, r, n);
    assert (s.produced + bytes) + (Body(job, t.ranges[0]) + After(job, t.ranges))
        == s.produced + ((bytes + Body(job, t.ranges[0])) + After(job, t.ranges));
    assert s.wire + (s.pending + bytes) == (s.wire + s.pending) + bytes;
  }

  lemma ShuffleWriteLaw(job: Job, s: Send, w: Sock)
    requires Sound(job, s)
    ensures var r := ShuffleWrite(s, w).0;
            && Sound(job, r) && r.ranges == s.ranges && r.produced == s.produced && (InOrder(s) ==> InOrder(r))
            && (r.status == Dead ==> s.status == Dead || (w.Broken? && s.pending != "" && r.wire == s.wire))
            && (r.status != Dead ==> r.status == s.status)
  {
    if w.Sent? {
      var k := Min(w.count, |s.pending|);
      assert s.pending[..k] + s.pending[k..] == s.pending;
      assert s.wire + (s.pending[..k] + s.pending[k..]) == (s.wire + s.pending[..k]) + s.pending[k..];
    }
  }

  /** Every range has bytes to send, and the text before every part but the first fits into the reserve. */
  predicate Sendable(job: Job, ranges: seq<Spec>)
    requires AllFit(job, ranges)
  {
    forall i {:trigger ranges[i]} :: 0 <= i < |ranges| ==>
      ranges[i].start <= ranges[i].stop && (job.multipart && i > 0 ==> |Flat(PartHeader(job, ranges[i]))| <= RESERVE)
  }

  lemma NextFits(job: Job, ranges: seq<Spec>)
    requires AllFit(job, ranges) && ranges != [] && Sendable(job, ranges)
    ensures |Next(job, ranges)| <= RESERVE
  {
    hide Flat, PartHeader;
  }

  /** The invariant of a response: the client sees bytes in order, every range has bytes to send
      and room for its text, and a dead request has not sent everything. */
  ghost predicate UnderWay(job: Job, s: Send) {
    && Sound(job, s) && s.wire <= s.produced
    && (s.status == Dead ==> |s.wire| < |Whole(job, s)|)
    && (s.status != Dead ==> InOrder(s) && Sendable(job, s.ranges) && (s.ranges == [] <==> s.status == Done))
  }

  /** From `s` to `r` the response neither loses nor repeats nor reorders a byte, the buffer is not
      overrun, and only a failing file or socket kills it. */
  ghost predicate Delivers(job: Job, s: Send, r: Send, failed: bool)
    requires Sound(job, s)
  {
    UnderWay(job, r) && Whole(job, r) == Whole(job, s) && (r.status == Dead ==> failed)
  }

  /** A HEAD request sends the texts between the ranges only; then they need room at once. */
  predicate HeadFits(job: Job, s: Send)
    requires Sound(job, s) && s.ranges != []
  {
    job.head ==> s.bufferEnd + |Next(job, s.ranges)| <= BUFFER_SIZE
  }

  /** A request that dies before its response has been produced, or with bytes in the buffer, has
      not sent everything. */
  lemma DeadIsShort(job: Job, s: Send)
    requires Sound(job, s) && s.wire <= s.produced
    requires |s.wire| < |s.produced| || (s.ranges != [] && s.ranges[0].start <= s.ranges[0].stop && !job.head)
    ensures |s.wire| < |Whole(job, s)|
  {
    hide After;
  }

  /** Whatever completes a range keeps the response going. */
  lemma CompleteDelivers(job: Job, s: Send, w: Sock)
    requires Sound(job, s) && s.ranges != [] && s.status == Transferring && InOrder(s) && Body(job, s.ranges[0]) == ""
    requires s.bufferEnd + |Next(job, s.ranges)| <= BUFFER_SIZE && Sendable(job, s.ranges[1..])
    ensures Delivers(job, s, CompleteResponse(job, s, w).0, w.Broken?)
  {
    hide Flat, PartHeader, CompleteResponse, Next, After, Body;
    CompleteLaw(job, s, w);
    var r := CompleteResponse(job, s, w).0;
    if r.status == Dead {
      assert r.wire <= s.produced;
      DeadIsShort(job, r);
    }
  }

  lemma ShuffleWriteDelivers(job: Job, s: Send, w: Sock)
    requires Sound(job, s) && s.ranges != [] && s.status == Transferring && InOrder(s) && Sendable(job, s.ranges)
    ensures Delivers(job, s, ShuffleWrite(s, w).0, w.Broken?)
  {
    hide ShuffleWrite, After, Body, Sendable;
    ShuffleWriteLaw(job, s, w);
    var r := ShuffleWrite(s, w).0;
    if r.status == Dead {
      DeadIsShort(job, r);
    }
  }

  lemma AbsorbDelivers(job: Job, s: Send, n: nat, w: Sock)
    requires Sound(job, s) && s.ranges != [] && s.status == Transferring && InOrder(s) && !job.head && Sendable(job, s.ranges)
    requires s.ranges[0].start + n <= s.ranges[0].stop + 1 && s.bufferEnd + n + RESERVE <= BUFFER_SIZE
    ensures Delivers(job, s, Absorb(job, s, n, w).0, w.Broken?)
  {
    hide Flat, PartHeader, Take, CompleteResponse, ShuffleWrite, Next, After, Body;
    var t := Take(job, s, n);
    TakeLaw(job, s, n);
    TakeShape(job, s, n);
    if t.ranges[0].start == t.ranges[0].stop + 1 {
      NextFits(job, s.ranges);
      NothingLeft(job, t.ranges[0]);
      CompleteDelivers(job, t, w);
    } else {
      ShuffleWriteDelivers(job, t, w);
    }
  }

  /** One call, whatever the file and the socket answer: the response goes on exactly unless it is one
      to a HEAD request whose next text does not fit. */
  lemma IoShuffleLaw(job: Job, s: Send, d: Disk, w: Sock)
    requires UnderWay(job, s) && s.status == Transferring
    ensures Delivers(job, s, IoShuffle(job, s, d, w).0, w.Broken? || d.DiskFailed?) <==> HeadFits(job, s)
  {
    hide Flat, PartHeader, Absorb, CompleteResponse, ShuffleWrite, After, Body, Delivers;
    SameDelivers(job, s, s.(fileOpen := false));
    if job.head {
      NothingLeft(job, s.ranges[0]);
      HeadDelivers(job, s, w);
    } else if Wanted(s) > 0 && s.fileOpen && d.Bytes? && d.count > 0 {
      AbsorbDelivers(job, s, Min(d.count, Wanted(s)), w);
    } else if Wanted(s) > 0 && s.fileOpen && d.DiskFailed? {
      DiskFailure(job, s);
    } else {
      ShuffleWriteDelivers(job, s, w);
      ShuffleWriteDelivers(job, s.(fileOpen := false), w);
    }
    DeliversMore(job, s, IoShuffle(job, s, d, w).0, w.Broken?, d.DiskFailed?);
  }

  lemma HeadDelivers(job: Job, s: Send, w: Sock)
    requires UnderWay(job, s) && s.status == Transferring && job.head
    ensures forall failed ::
              (w.Broken? ==> failed) ==> (Delivers(job, s, CompleteResponse(job, s, w).0, failed) <==> HeadFits(job, s))
  {
    hide Flat, PartHeader, CompleteResponse, Next, After, Body;
    NothingLeft(job, s.ranges[0]);
    CompleteExactly(job, s, w);
    SendableTail(job, s);
    if HeadFits(job, s) {
      CompleteDelivers(job, s, w);
    }
  }

  lemma SendableTail(job: Job, s: Send)
    requires Sound(job, s) && s.ranges != [] && Sendable(job, s.ranges)
    ensures AllFit(job, s.ranges[1..]) && Sendable(job, s.ranges[1..])
  {
    hide Flat, PartHeader;
  }

  /** Whether the file is open makes no difference to what is delivered. */
  lemma SameDelivers(job: Job, s: Send, t: Send)
    requires Sound(job, s) && t == s.(fileOpen := t.fileOpen)
    ensures Sound(job, t) && forall r, failed :: Delivers(job, t, r, failed) ==> Delivers(job, s, r, failed)
    ensures InOrder(s) ==> InOrder(t)
    ensures s.status == Transferring && s.ranges != [] && InOrder(s) && Sendable(job, s.ranges) ==> Delivers(job, s, s, false)
  {
    hide After, Body, Sendable;
  }

  lemma DiskFailure(job: Job, s: Send)
    requires Sound(job, s) && s.ranges != [] && InOrder(s) && !job.head && Sendable(job, s.ranges)
    ensures Delivers(job, s, s.(status := Dead), true)
  {
    hide After, Body;
    DeadIsShort(job, s.(status := Dead));
  }

  lemma DeliversMore(job: Job, s: Send, r: Send, f: bool, g: bool)
    requires Sound(job, s)
    ensures Delivers(job, s, r, f) || Delivers(job, s, r, g) || Delivers(job, s, r, false) ==> Delivers(job, s, r, f || g)
    ensures g && Delivers(job, s, r, true) ==> Delivers(job, s, r, f || g)
  {
  }

  /** Exactly when `io_shuffle` gives up with ranges still to be sent: the file has ended early and
      the buffer is drained. */
  lemma IoShuffleEndsExactly(job: Job, s: Send, d: Disk, w: Sock)
    requires Sound(job, s) && s.ranges != [] && s.status == Transferring && Sendable(job, s.ranges)
    ensures var (r, result) := IoShuffle(job, s, d, w);
            && (result == 0 && r.status != Dead ==> r.ranges == [] || (!r.fileOpen && r.pending == "" && !job.head))
            && (result == 0 && r.status != Dead && r.ranges != [] <==>
                  !job.head && s.pending == "" && (!s.fileOpen || (Wanted(s) > 0 && d == Bytes(0))))
  {
    hide Flat, PartHeader, After, Body, Sendable, Take;
    if !job.head && Wanted(s) > 0 && s.fileOpen && d.Bytes? && d.count > 0 {
      TakeShape(job, s, Min(d.count, Wanted(s)));
      assert Take(job, s, Min(d.count, Wanted(s))).pending != "" by { TakePending(job, s, Min(d.count, Wanted(s))); }
    }
  }

  /** The buffer stays sound even where a text does not fit. */
  lemma IoShuffleSound(job: Job, s: Send, d: Disk, w: Sock)
    requires Sound(job, s) && s.ranges != [] && s.status == Transferring
    ensures Sound(job, IoShuffle(job, s, d, w).0)
  {
    hide Flat, PartHeader, Take, CompleteResponse, ShuffleWrite, Next, After, Body, Sound;
    ShuffleWriteLaw(job, s, w);
    NotOpen(job, s);
    ShuffleWriteLaw(job, s.(fileOpen := false), w);
    if job.head {
      NothingLeft(job, s.ranges[0]);
      CompleteExactly(job, s, w);
    } else if Wanted(s) > 0 && s.fileOpen && d.Bytes? && d.count > 0 {
      var n := Min(d.count, Wanted(s));
      var t := Take(job, s, n);
      TakeLaw(job, s, n);
      TakeShape(job, s, n);
      if t.ranges[0].start == t.ranges[0].stop + 1 {
        NothingLeft(job, t.ranges[0]);
        CompleteExactly(job, t, w);
      } else {
        ShuffleWriteLaw(job, t, w);
      }
    }
  }

  lemma NotOpen(job: Job, s: Send)
    requires Sound(job, s)
    ensures Sound(job, s.(fileOpen := false)) && Sound(job, s.(status := Dead))
    ensures s.ranges != [] ==> Fits(job, s.ranges[0])
  {
  }

  lemma TakePending(job: Job, s: Send, n: nat)
    requires s.ranges != [] && 0 <= s.ranges[0].start && s.ranges[0].start + n <= |job.file| && n > 0
    ensures Take(job, s, n).pending != ""
  {
    assert |job.file[s.ranges[0].start..s.ranges[0].start + n]| == n;
  }

  lemma TakeShape(job: Job, s: Send, n: nat)
    requires s.ranges != [] && 0 <= s.ranges[0].start && s.ranges[0].start + n <= |job.file|
    ensures var t := Take(job, s, n);
            && t.ranges == [Spec(s.ranges[0].start + n, s.ranges[0].stop)] + s.ranges[1..]
            && t.bufferEnd == s.bufferEnd + n && t.status == s.status && t.fileOpen == s.fileOpen
  {
  }

  lemma NothingLeft(job: Job, r: Spec)
    requires Fits(job, r) && (job.head || r.start == r.stop + 1)
    ensures Body(job, r) == ""
  {
  }

  // ----- When the reserve is enough ---------------------------------------------------------

  function TotalLength(texts: seq<string>): nat {
    if texts == [] then 0 else TotalLength(texts[..|texts| - 1]) + |texts[|texts| - 1]|
  }

  lemma {:induction false} FlatLength(texts: seq<string>)
    ensures |Flat(texts)| == TotalLength(texts)
  {
    if texts != [] {
      FlatLength(texts[..|texts| - 1]);
    }
  }

  lemma {:induction false} TotalLengthConcat(a: seq<string>, b: seq<string>)
    ensures TotalLength(a + b) == TotalLength(a) + TotalLength(b)
  {
    if b == [] {
      assert a + b == a;
    } else {
      assert (a + b)[..|a + b| - 1] == a + b[..|b| - 1];
      TotalLengthConcat(a, b[..|b| - 1]);
    }
  }

  lemma TotalLengthCons(x: string, rest: seq<string>)
    ensures TotalLength([x] + rest) == |x| + TotalLength(rest)
  {
    TotalLengthConcat([x], rest);
    assert TotalLength([x]) == TotalLength([]) + |x| by { assert [x][..0] == []; }
  }

  /** A number has as many digits as the power of ten above it says. */
  lemma {:induction false} DigitsLength(n: nat, k: nat)
    requires k > 0 && n < Pow10(k)
    ensures |Digits(n)| <= k
    ensures k == 1 || n >= Pow10(k - 1) ==> |Digits(n)| == k
  {
    if n >= 10 {
      DigitsLength(n / 10, k - 1);
    }
  }

  /** The bytes of the "Content-Type" line. */
  function TypeLength(job: Job): nat {
    if job.mime.None? then 0
    else 16 + |job.mime.value| + if job.charset.Some? && IsText(job.mime.value) then 10 + |job.charset.value| else 0
  }

  lemma ContentTypeLength(job: Job)
    ensures TotalLength(ContentType(job)) == TypeLength(job)
  {
    if job.mime.Some? {
      var cs := if job.charset.Some? && IsText(job.mime.value) then ["; charset=", job.charset.value] else [];
      TotalLengthConcat(["Content-Type: ", job.mime.value] + cs, [CRLF]);
      TotalLengthConcat(["Content-Type: ", job.mime.value], cs);
      TotalLengthCons("Content-Type: ", [job.mime.value]);
      TotalLengthCons(job.mime.value, []);
      TotalLengthCons(CRLF, []);
      assert [job.mime.value] + [] == [job.mime.value] && [CRLF] + [] == [CRLF];
      if cs != [] {
        TotalLengthCons("; charset=", [job.charset.value]);
        TotalLengthCons(job.charset.value, []);
        assert [job.charset.value] + [] == [job.charset.value];
      }
    }
  }

  lemma ContentRangeLength(job: Job, r: Spec)
    requires 0 <= r.start && 0 <= r.stop
    ensures TotalLength(ContentRange(job, r)) == 25 + |Digits(r.start)| + |Digits(r.stop)| + |Digits(|job.file|)|
  {
    hide Digits;
    var t1 := [CRLF];
    var t2 := [Digits(|job.file|)] + t1;
    var t3 := ["/"] + t2;
    var t4 := [Digits(r.stop)] + t3;
    var t5 := ["-"] + t4;
    var t6 := [Digits(r.start)] + t5;
    TotalLengthCons(CRLF, []);
    assert [CRLF] + [] == t1;
    TotalLengthCons(Digits(|job.file|), t1);
    TotalLengthCons("/", t2);
    TotalLengthCons(Digits(r.stop), t3);
    TotalLengthCons("-", t4);
    TotalLengthCons(Digits(r.start), t5);
    TotalLengthCons("Content-Range: bytes ", t6);
    assert ContentRange(job, r) == ["Content-Range: bytes "] + t6;
  }

  /** The length of a part header. */
  lemma PartHeaderLength(job: Job, r: Spec)
    requires 0 <= r.start && 0 <= r.stop
    ensures |Flat(PartHeader(job, r))|
         == 54 + TypeLength(job) + |Digits(r.start)| + |Digits(r.stop)| + |Digits(|job.file|)|
  {
    hide Digits;
    FlatLength(PartHeader(job, r));
    TotalLengthConcat([SEPARATOR] + ContentType(job) + ContentRange(job, r), [CRLF]);
    TotalLengthConcat([SEPARATOR] + ContentType(job), ContentRange(job, r));
    TotalLengthConcat([SEPARATOR], ContentType(job));
    ContentTypeLength(job);
    ContentRangeLength(job, r);
    TotalLengthCons(SEPARATOR, []);
    TotalLengthCons(CRLF, []);
    assert [SEPARATOR] + [] == [SEPARATOR] && [CRLF] + [] == [CRLF];
  }

  lemma NineteenDigits(n: nat)
    requires n < 0x8000_0000_0000_0000
    ensures |Digits(n)| <= 19 && (n >= 1000000000000000000 ==> |Digits(n)| == 19)
  {
    assert Pow10(6) == 1000000;
    assert Pow10(12) == 1000000000000;
    assert Pow10(18) == 1000000000000000000;
    DigitsLength(n, 19);
  }

  /** A range inside a file whose size an `off_t` can hold. */
  predicate Inside(r: Spec, file: string) { 0 <= r.start <= r.stop < |file| < 0x8000_0000_0000_0000 }

  lemma ReserveFits(job: Job, r: Spec)
    requires Inside(r, job.file) && TypeLength(job) <= 145
    ensures |Flat(PartHeader(job, r))| <= RESERVE && |TRAILER| <= RESERVE
  {
    PartHeaderLength(job, r);
    NineteenDigits(r.start);
    NineteenDigits(r.stop);
    NineteenDigits(|job.file|);
  }

  lemma LargeFile(job: Job)
    requires TypeLength(job) > 145
    ensures exists file, r :: Inside(r, file) && |Flat(PartHeader(job.(file := file), r))| > RESERVE
  {
    hide Flat, PartHeader, TypeLength, Digits;
    var n := 1000000000000000000;
    var file := seq(2 * n, i => 'a');
    var j, r := job.(file := file), Spec(n, n);
    PartHeaderLength(j, r);
    NineteenDigits(n);
    NineteenDigits(2 * n);
    SameType(job, file);
    assert Inside(r, file) && |Flat(PartHeader(j, r))| > RESERVE;
  }

  lemma SameType(job: Job, file: string)
    ensures TypeLength(job.(file := file)) == TypeLength(job)
  {
  }

  /** The 256 bytes kept free are enough for every part header, whatever the file and the range,
      exactly when the content type line has at most 145 bytes. */
  lemma ReserveIsEnough(job: Job)
    ensures (forall file, r | Inside(r, file) :: |Flat(PartHeader(job.(file := file), r))| <= RESERVE)
            <==> TypeLength(job) <= 145
  {
    hide Flat, PartHeader, TypeLength;
    if TypeLength(job) <= 145 {
      forall file, r | Inside(r, file)
        ensures |Flat(PartHeader(job.(file := file), r))| <= RESERVE
      {
        SameType(job, file);
        ReserveFits(job.(file := file), r);
      }
    } else {
      LargeFile(job);
    }
  }

  // ----- Exactly when the end of a range loses nothing ---------------------------------------

  /** `complete_response` produces all of the next text exactly when it fits behind the end of the
      buffer; otherwise the request is dead or the trailer is silently missing. */
  lemma CompleteExactly(job: Job, s: Send, w: Sock)
    requires Sound(job, s) && s.status == Transferring && s.ranges != [] && Body(job, s.ranges[0]) == ""
    ensures Sound(job, CompleteResponse(job, s, w).0)
    ensures Whole(job, CompleteResponse(job, s, w).0) == Whole(job, s)
            <==> s.bufferEnd + |Next(job, s.ranges)| <= BUFFER_SIZE
  {
    hide Flat, PartHeader, Body, WriteAll, After;
    if s.bufferEnd + |Next(job, s.ranges)| <= BUFFER_SIZE {
      CompleteLaw(job, s, w);
    } else {
      AfterIsNext(job, s.ranges);
      var popped := s.(ranges := s.ranges[1..]);
      if popped.ranges != [] {
        WriteAllLaw(popped, PartHeader(job, popped.ranges[0]));
        assert |Whole(job, WriteAll(popped, PartHeader(job, popped.ranges[0])))| < |Whole(job, s)|;
      } else {
        FlushLaw(job, ReqWrite(popped, TRAILER).(status := Done), w);
        assert |Whole(job, CompleteResponse(job, s, w).0)| < |Whole(job, s)|;
      }
    }
  }

  /** Completing a range leaves no more to be produced than there was, whether or not the text fits. */
  lemma CompleteShrinks(job: Job, s: Send, w: Sock)
    requires Sound(job, s) && s.status == Transferring && s.ranges != [] && Body(job, s.ranges[0]) == ""
    ensures var r := CompleteResponse(job, s, w).0;
            Sound(job, r) && |Remaining(job, r)| <= |Remaining(job, s)|
            && (r.status != Dead ==> (r.ranges == [] <==> r.status == Done))
  {
    hide Flat, PartHeader, Body, WriteAll, After;
    AfterIsNext(job, s.ranges);
    var popped := s.(ranges := s.ranges[1..]);
    if job.multipart && popped.ranges != [] {
      WriteAllLaw(popped, PartHeader(job, popped.ranges[0]));
    } else if job.multipart {
      FlushLaw(job, ReqWrite(popped, TRAILER).(status := Done), w);
    }
  }

  // ----- Mapped files -------------------------------------------------------------------------

  /** The write of `process_get`: straight from the mapping to the socket, past the buffer. */
  function Direct(job: Job, s: Send, k: nat): Send
    requires s.ranges != [] && 0 <= s.ranges[0].start && s.ranges[0].start + k <= |job.file|
  {
    var r := s.ranges[0];
    var bytes := job.file[r.start..r.start + k];
    s.(wire := s.wire + bytes, produced := s.produced + bytes, ranges := [Spec(r.start + k, r.stop)] + s.ranges[1..])
  }

  /** `process_get`; `limit` is `system_bufsize` and `w2` answers the flush after a trailer. */
  function ProcessGet(job: Job, s: Send, limit: nat, w: Sock, w2: Sock): (Send, int)
    requires Sound(job, s) && s.ranges != []
  {
    if job.head then CompleteResponse(job, s, w2)
    else match w
      case SockBlocked => (s, -1)
      case Broken => (s.(status := Dead), 0)
      case Sent(count) =>
        var t := Direct(job, s, Min(count, Min(s.ranges[0].stop - s.ranges[0].start + 1, limit)));
        if t.ranges[0].start == t.ranges[0].stop + 1 then CompleteResponse(job, t, w2) else (t, 1)
  }

  lemma DirectLaw(job: Job, s: Send, k: nat)
    requires Sound(job, s) && s.ranges != [] && !job.head && s.ranges[0].start + k <= s.ranges[0].stop + 1
    ensures var t := Direct(job, s, k);
            && Sound(job, t) && Whole(job, t) == Whole(job, s) && Next(job, t.ranges) == Next(job, s.ranges)
            && |Remaining(job, t)| == |Remaining(job, s)| - k
  {
    hide After, Next, Body;
    var r, t := s.ranges[0], Direct(job, s, k);
    var bytes := job.file[r.start..r.start + k];
    assert t.ranges[1..] == s.ranges[1..];
    AfterSame(job, s.ranges, t.ranges);
    BodySplit(job, r, k);
    assert (s.produced + bytes) + (Body(job, t.ranges[0]) + After(job, t.ranges))
        == s.produced + ((bytes + Body(job, t.ranges[0])) + After(job, s.ranges));
  }

  /** Does this call end the first range? */
  predicate Completes(job: Job, s: Send, limit: nat, w: Sock)
    requires s.ranges != []
  {
    var want := s.ranges[0].stop - s.ranges[0].start + 1;
    job.head || (w.Sent? && w.count >= want && limit >= want)
  }

  /** The chunks written for the ranges, in list order and with the texts between them, are the
      response without gap or overlap, exactly unless a range ends and the next text does not fit
      the buffer. Positive writes shrink what remains, and `DONE` is reached exactly when every
      range has been sent. */
  lemma ProcessGetLaw(job: Job, s: Send, limit: nat, w: Sock, w2: Sock)
    requires Sound(job, s) && s.ranges != [] && s.status == Transferring
    ensures Sound(job, ProcessGet(job, s, limit, w, w2).0)
    ensures var r, fits := ProcessGet(job, s, limit, w, w2).0, s.bufferEnd + |Next(job, s.ranges)| <= BUFFER_SIZE;
            && (Whole(job, r) == Whole(job, s) <==> !Completes(job, s, limit, w) || fits)
            && (fits && r.status == Dead ==> w.Broken? || w2.Broken?)
            && (r.status != Dead ==> (r.ranges == [] <==> r.status == Done))
    ensures !job.head && w.Sent? && w.count > 0 && limit > 0 && s.ranges[0].start <= s.ranges[0].stop ==>
              |Remaining(job, ProcessGet(job, s, limit, w, w2).0)| < |Remaining(job, s)|
  {
    hide Flat, PartHeader, CompleteResponse, Next, After, Body;
    if job.head {
      NothingLeft(job, s.ranges[0]);
      CompletedLaw(job, s, w2);
    } else if w.Sent? {
      var k := Min(w.count, Min(s.ranges[0].stop - s.ranges[0].start + 1, limit));
      var t := Direct(job, s, k);
      DirectLaw(job, s, k);
      if t.ranges[0].start == t.ranges[0].stop + 1 {
        NothingLeft(job, t.ranges[0]);
        CompletedLaw(job, t, w2);
      }
    }
  }

  lemma CompletedLaw(job: Job, s: Send, w: Sock)
    requires Sound(job, s) && s.status == Transferring && s.ranges != [] && Body(job, s.ranges[0]) == ""
    ensures var r, fits := CompleteResponse(job, s, w).0, s.bufferEnd + |Next(job, s.ranges)| <= BUFFER_SIZE;
            && Sound(job, r) && (Whole(job, r) == Whole(job, s) <==> fits) && (fits && r.status == Dead ==> w.Broken?)
            && (r.status != Dead ==> (r.ranges == [] <==> r.status == Done))
            && |Remaining(job, r)| <= |Remaining(job, s)|
  {
    hide Flat, PartHeader, CompleteResponse, Next, After, Body;
    CompleteExactly(job, s, w);
    CompleteShrinks(job, s, w);
    if s.bufferEnd + |Next(job, s.ranges)| <= BUFFER_SIZE {
      CompleteLaw(job, s, w);
    }
  }

  /** The order of bytes on the wire is kept by a direct write, whatever the file holds, exactly when
      the buffer has been drained or nothing is accepted. */
  lemma DirectOrderExactly(job: Job, s: Send, k: nat)
    requires s.ranges != [] && 0 <= s.ranges[0].start && s.ranges[0].start + k <= |job.file| && InOrder(s)
    ensures (forall file: string | |file| == |job.file| :: InOrder(Direct(job.(file := file), s, k)))
            <==> s.pending == "" || k == 0
  {
    if s.pending != "" && k > 0 {
      var c := if s.pending[0] == 'a' then 'b' else 'a';
      var file := seq(|job.file|, i => c);
      var t := Direct(job.(file := file), s, k);
      assert t.produced[|s.wire|] == s.pending[0];
      assert (t.wire + t.pending)[|s.wire|] == c;
    } else {
      forall file: string | |file| == |job.file|
        ensures InOrder(Direct(job.(file := file), s, k))
      {
        var bytes := file[s.ranges[0].start..s.ranges[0].start + k];
        assert bytes == "" || s.pending == "";
      }
    }
  }

  /** The first chunk, at the end of `init_get`: into the buffer if more than the reserve is free. */
  function InitCopy(job: Job, s: Send, w: Sock): (Send, int)
    requires Sound(job, s) && s.ranges != []
  {
    if job.head then CompleteResponse(job, s, w)
    else if BUFFER_SIZE - s.bufferEnd <= RESERVE then (s, 1)
    else
      var want := s.ranges[0].stop - s.ranges[0].start + 1;
      var n := Min(BUFFER_SIZE - s.bufferEnd, want);
      var t := Take(job, s, n);
      if n == want then CompleteResponse(job, t, w) else (t, 1)
  }

  /** The first chunk does not end the first range, or the next text fits behind it. */
  predicate RoomAfterCopy(job: Job, s: Send)
    requires Sound(job, s) && s.ranges != []
  {
    var want := s.ranges[0].stop - s.ranges[0].start + 1;
    if job.head then s.bufferEnd + |Next(job, s.ranges)| <= BUFFER_SIZE
    else
      BUFFER_SIZE - s.bufferEnd <= RESERVE || want > BUFFER_SIZE - s.bufferEnd
      || s.bufferEnd + want + |Next(job, s.ranges)| <= BUFFER_SIZE
  }

  /** The copy uses the reserve too, so it loses nothing exactly when the range does not end in the
      buffer or the next text still fits behind it. */
  lemma InitCopyExactly(job: Job, s: Send, w: Sock)
    requires Sound(job, s) && s.ranges != [] && s.status == Transferring
    ensures Sound(job, InitCopy(job, s, w).0)
    ensures Whole(job, InitCopy(job, s, w).0) == Whole(job, s) <==> RoomAfterCopy(job, s)
  {
    hide Flat, PartHeader, CompleteResponse, Next, After, Body;
    if job.head {
      NothingLeft(job, s.ranges[0]);
      CompleteExactly(job, s, w);
    } else if BUFFER_SIZE - s.bufferEnd > RESERVE {
      var want := s.ranges[0].stop - s.ranges[0].start + 1;
      var n := Min(BUFFER_SIZE - s.bufferEnd, want);
      TakeLaw(job, s, n);
      TakeShape(job, s, n);
      if n == want {
        NothingLeft(job, Take(job, s, n).ranges[0]);
        CompleteExactly(job, Take(job, s, n), w);
      }
    }
  }
}
