/** Whole responses, from the first byte in the buffer to the end of the request: the visits of
    `process_requests` (src/request.c:472-587), the last flush of `free_request`
    (src/request.c:308-326), and the first chunk of `init_get` (src/get.c:405-455). */
module Courses {
  import opened Commons
  import opened RangeSyntax
  import opened Transfer
  import RangeList
  import Requests

  // ----- The beginning --------------------------------------------------------------------

  /** A response whose headers are in the buffer; the ranges are what `ranges_fixup` made of `specs`. */
  function Begun(job: Job, specs: seq<Spec>, headers: string): Send
    requires Storable(specs) && 0 < |job.file| < RangeList.SIGN_BIT
  {
    Send(RangeList.FitAll(specs, |job.file|, |specs|), headers, |headers|, Transferring, true, "", headers)
  }

  /** Such a response satisfies the invariant of a run when its headers fit the buffer and its
      content type line has at most 145 bytes: the ranges are inside the file, none is empty, and
      every part header fits the reserve. */
  lemma BegunIsUnderWay(job: Job, specs: seq<Spec>, headers: string)
    requires Storable(specs) && 0 < |job.file| < RangeList.SIGN_BIT
    requires |headers| <= BUFFER_SIZE && TypeLength(job) <= 145
    requires var n := |RangeList.FitAll(specs, |job.file|, |specs|)|; n > 0 && (!job.multipart ==> n == 1)
    ensures UnderWay(job, Begun(job, specs, headers))
  {
    hide Flat, PartHeader;
    var ranges := RangeList.FitAll(specs, |job.file|, |specs|);
    forall i | 0 <= i < |ranges|
      ensures Fits(job, ranges[i]) && ranges[i].start <= ranges[i].stop && |Flat(PartHeader(job, ranges[i]))| <= RESERVE
    {
      ReserveFits(job, ranges[i]);
    }
  }

  // ----- The end --------------------------------------------------------------------------

  /** What a handler's result means: 0 frees the request. */
  function Ended(r: (Send, int), last: Sock): Course
    requires |r.0.pending| <= r.0.bufferEnd
  {
    if r.1 == 0 then Freed(r.0, last) else Course(r.0, false)
  }

  /** Why a request was freed with ranges still to be sent: the file ended early, and the buffer
      was drained. */
  predicate CutShort(job: Job, s: Send) { s.ranges != [] && !s.fileOpen && s.pending == "" && !job.head }

  /** A request that has been freed. */
  ghost predicate Over(job: Job, s: Send) {
    && Sound(job, s) && s.wire <= s.produced
    && (s.status == Dead ==> |s.wire| < |Whole(job, s)|)
    && (s.status != Dead ==> InOrder(s) && Sendable(job, s.ranges) && (s.ranges == [] || CutShort(job, s)))
  }

  ghost predicate Lives(job: Job, c: Course) { if c.over then Over(job, c.s) else UnderWay(job, c.s) }

  /** The response goes on as it was begun, and only a failure kills it. */
  ghost predicate Proceeds(job: Job, s: Send, c: Course, failed: bool)
    requires Sound(job, s)
  {
    Lives(job, c) && Sound(job, c.s) && Whole(job, c.s) == Whole(job, s) && (c.s.status == Dead ==> s.status == Dead || failed)
  }

  lemma FlushDies(job: Job, s: Send, w: Sock)
    requires Sound(job, s) && InOrder(s) && s.status != Dead
    ensures var r := ReqFlush(s, w).0; r.status == Dead ==> Sound(job, r) && r.wire <= r.produced && |r.wire| < |Whole(job, r)|
  {
    hide After, Body;
    FlushLaw(job, s, w);
    var r := ReqFlush(s, w).0;
    if r.status == Dead {
      DeadIsShort(job, r);
    }
  }

  lemma FreedLaw(job: Job, s: Send, last: Sock)
    requires UnderWay(job, s) && (s.status != Dead ==> s.ranges == [] || CutShort(job, s))
    ensures Proceeds(job, s, Freed(s, last), last.Broken?)
  {
    hide After, Body, ReqFlush, Sendable;
    var t := s.(status := if s.status == Dead then Dead else Done);
    FlushLaw(job, t, last);
    if s.status != Dead {
      FlushDies(job, t, last);
      FlushKeeps(t, last);
    }
  }

  /** Of a flush that leaves nothing to do, and of a short one. */
  lemma FlushKeeps(s: Send, w: Sock)
    requires |s.pending| <= s.bufferEnd && s.status == Done
    ensures var r := ReqFlush(s, w);
            && (s.pending == "" ==> r.1 == 0 && r.0.pending == "") && r.0.fileOpen == s.fileOpen
            && (r.1 > 0 ==> r.0.pending != "" && r.0.status == Done)
  {
  }

  /** A finished response: what is buffered is flushed, and the request freed when nothing is left or
      the socket fails. */
  function Finished(t: Send, w: Sock, last: Sock): Course
    requires |t.pending| <= t.bufferEnd
  {
    var f := ReqFlush(t, w);
    if f.1 == 0 || f.1 == -2 then Freed(f.0, last) else Course(f.0, false)
  }

  /** The flush at the beginning of a visit; the result is -1 when that blocks. */
  function Flushed(s: Send, w: Sock): (Send, int)
    requires |s.pending| <= s.bufferEnd
  {
    if s.bufferEnd > 0 && s.status != Dead then ReqFlush(s, w) else (s, 1)
  }

  lemma FinishedLaw(job: Job, t: Send, w: Sock, last: Sock)
    requires UnderWay(job, t) && t.status == Done
    ensures Proceeds(job, t, Finished(t, w, last), w.Broken? || last.Broken?)
  {
    hide After, Body, ReqFlush, Freed, Sendable;
    FlushLaw(job, t, w);
    FlushDies(job, t, w);
    FreedLaw(job, ReqFlush(t, w).0, last);
  }

  lemma FlushedLaw(job: Job, s: Send, w: Sock)
    requires UnderWay(job, s)
    ensures var (t, result) := Flushed(s, w);
            && UnderWay(job, t) && Whole(job, t) == Whole(job, s) && (t.status == Dead ==> s.status == Dead || w.Broken?)
            && (t.status != Dead ==> t.status == s.status) && t.ranges == s.ranges
  {
    hide After, Body, ReqFlush, Sendable;
    FlushLaw(job, s, w);
    if s.status != Dead {
      FlushDies(job, s, w);
    }
  }

  lemma FreedSound(job: Job, s: Send, last: Sock)
    requires Sound(job, s)
    ensures Sound(job, Freed(s, last).s)
  {
    hide ReqFlush, Sound;
    NotOpen(job, s);
    Closing(job, s);
    FlushLaw(job, s.(status := Done), last);
  }

  lemma Closing(job: Job, s: Send)
    requires Sound(job, s)
    ensures Sound(job, s.(status := Done)) && |s.pending| <= s.bufferEnd <= BUFFER_SIZE
  {
  }

  // ----- Files that are read ----------------------------------------------------------------

  /** What the world answers during one visit of `process_requests`: to the flush of what is buffered,
      to the read and the write of `io_shuffle` or the flush of a finished response, and to the
      flush of `free_request`. */
  datatype Visit = Visit(flush: Sock, d: Disk, w: Sock, last: Sock)

  predicate Failing(v: Visit) { v.flush.Broken? || v.d.DiskFailed? || v.w.Broken? || v.last.Broken? }

  function VisitOnce(job: Job, s: Send, v: Visit): Course
    requires Sound(job, s)
  {
    var (t, result) := Flushed(s, v.flush);
    FlushLaw(job, s, v.flush);
    if result == -1 then Course(t, false)
    else match t.status
      case Transferring => if t.ranges == [] then Course(t, false) else Copied(job, t, v)
      case Done => Finished(t, v.w, v.last)
      case Dead => Freed(t, v.last)
  }

  function Copied(job: Job, t: Send, v: Visit): Course
    requires Sound(job, t) && t.ranges != [] && t.status == Transferring
  {
    IoShuffleSound(job, t, v.d, v.w);
    Ended(IoShuffle(job, t, v.d, v.w), v.last)
  }

  lemma VisitSound(job: Job, s: Send, v: Visit)
    requires Sound(job, s)
    ensures Sound(job, VisitOnce(job, s, v).s)
  {
    hide ReqFlush, IoShuffle, Freed, Sound;
    Closing(job, s);
    FlushLaw(job, s, v.flush);
    var (t, result) := Flushed(s, v.flush);
    Closing(job, t);
    if t.status == Transferring && t.ranges != [] {
      IoShuffleSound(job, t, v.d, v.w);
      FreedSound(job, IoShuffle(job, t, v.d, v.w).0, v.last);
    } else {
      FlushLaw(job, t, v.w);
      FreedSound(job, ReqFlush(t, v.w).0, v.last);
      FreedSound(job, t, v.last);
    }
  }

  /** The texts of a HEAD request fit when its handler is called in this visit. */
  predicate HeadRoom(job: Job, s: Send, flush: Sock)
    requires Sound(job, s)
  {
    var (t, result) := Flushed(s, flush);
    FlushLaw(job, s, flush);
    result != -1 && t.status == Transferring && t.ranges != [] ==> HeadFits(job, t)
  }

  lemma CopiedLaw(job: Job, t: Send, v: Visit)
    requires UnderWay(job, t) && t.status == Transferring
    ensures Proceeds(job, t, Copied(job, t, v), v.d.DiskFailed? || v.w.Broken? || v.last.Broken?) <==> HeadFits(job, t)
  {
    hide After, Body, IoShuffle, Freed, Sendable, HeadFits;
    IoShuffleLaw(job, t, v.d, v.w);
    IoShuffleEndsExactly(job, t, v.d, v.w);
    var (r, result) := IoShuffle(job, t, v.d, v.w);
    if !HeadFits(job, t) {
      HeadOfSeveral(job, t, v);
    } else if result == 0 {
      FreedLaw(job, r, v.last);
    }
  }

  /** A HEAD request whose text does not fit is one for several ranges, and not freed at once. */
  lemma HeadOfSeveral(job: Job, t: Send, v: Visit)
    requires UnderWay(job, t) && t.status == Transferring && !HeadFits(job, t)
    ensures var c := Copied(job, t, v); Sound(job, c.s) && Whole(job, c.s) != Whole(job, t)
  {
    hide Flat, PartHeader, After, Body, WriteAll;
    NothingLeft(job, t.ranges[0]);
    CompleteExactly(job, t, v.w);
  }

  /** One visit, the end of the request included: the response goes on exactly unless it is one to a
      HEAD request whose next text does not fit. */
  lemma VisitLaw(job: Job, s: Send, v: Visit)
    requires UnderWay(job, s)
    ensures Proceeds(job, s, VisitOnce(job, s, v), Failing(v)) <==> HeadRoom(job, s, v.flush)
  {
    hide After, Body, Flushed, Copied, Freed, Finished, ReqFlush, Sendable, HeadFits;
    FlushedLaw(job, s, v.flush);
    var (t, result) := Flushed(s, v.flush);
    match t.status {
      case Transferring => CopiedLaw(job, t, v);
      case Done => FinishedLaw(job, t, v.w, v.last);
      case Dead => FreedLaw(job, t, v.last);
    }
    if !HeadRoom(job, s, v.flush) {
      HeadOfSeveral(job, t, v);
    }
  }

  /** Exactly when a visit ends a response that is still incomplete, without a failure: the earlier
      bytes are drained and the file has no more, although its size promised more. */
  lemma CutShortExactly(job: Job, s: Send, v: Visit)
    requires UnderWay(job, s) && s.status != Dead
    ensures var (t, result) := Flushed(s, v.flush);
            var c := VisitOnce(job, s, v);
            c.over && c.s.status != Dead && c.s.ranges != []
            <==> result != -1 && t.status == Transferring && !job.head && t.pending == ""
                 && (!t.fileOpen || v.d == Bytes(0))
  {
    hide After, Body, Flushed, IoShuffle, ReqFlush, Sendable;
    FlushedLaw(job, s, v.flush);
    var (t, result) := Flushed(s, v.flush);
    FlushedDrains(s, v.flush);
    if result != -1 && t.status == Transferring {
      IoShuffleLaw(job, t, v.d, v.w);
      IoShuffleEndsExactly(job, t, v.d, v.w);
      SomeWanted(job, t);
      IoShuffleSound(job, t, v.d, v.w);
      FreedRanges(IoShuffle(job, t, v.d, v.w).0, v.last);
    } else if result != -1 && t.status == Done {
      FlushLaw(job, t, v.w);
      FreedRanges(ReqFlush(t, v.w).0, v.last);
    } else if result != -1 {
      FreedRanges(t, v.last);
    }
  }

  lemma FlushedDrains(s: Send, w: Sock)
    requires |s.pending| <= s.bufferEnd && s.status != Dead
    ensures var (t, result) := Flushed(s, w);
            result != -1 && t.pending == "" ==> t.bufferEnd == 0
  {
  }

  lemma SomeWanted(job: Job, s: Send)
    requires UnderWay(job, s) && s.status == Transferring
    ensures s.bufferEnd == 0 ==> Wanted(s) > 0
  {
  }

  lemma FreedRanges(s: Send, last: Sock)
    requires |s.pending| <= s.bufferEnd
    ensures var c := Freed(s, last);
            && c.s.ranges == s.ranges && (s.status == Dead ==> c.over && c.s == s)
            && (s.pending == "" ==> c.over && (s.status != Dead ==> c.s.status != Dead))
  {
  }

  function Run(job: Job, c: Course, visits: seq<Visit>): (r: Course)
    requires Sound(job, c.s)
    ensures Sound(job, r.s)
    decreases |visits|
  {
    if c.over || visits == [] then c
    else
      VisitSound(job, c.s, visits[0]);
      Run(job, VisitOnce(job, c.s, visits[0]), visits[1..])
  }

  /** All along a run the texts of a HEAD request fit; of other requests this asks nothing. */
  predicate RoomAlong(job: Job, c: Course, visits: seq<Visit>)
    requires Sound(job, c.s)
    decreases |visits|
  {
    c.over || visits == []
    || (VisitSound(job, c.s, visits[0]);
        HeadRoom(job, c.s, visits[0].flush) && RoomAlong(job, VisitOnce(job, c.s, visits[0]), visits[1..]))
  }

  /** Every visit of a run keeps the response going. */
  ghost predicate ProceedsAlong(job: Job, c: Course, visits: seq<Visit>)
    requires Sound(job, c.s)
    decreases |visits|
  {
    c.over || visits == []
    || (VisitSound(job, c.s, visits[0]);
        var next := VisitOnce(job, c.s, visits[0]);
        Proceeds(job, c.s, next, Failing(visits[0])) && ProceedsAlong(job, next, visits[1..]))
  }

  /** The condition is exact: every visit of a run keeps the response going if and only if the texts
      fit all along. */
  lemma {:induction false} RunExactly(job: Job, c: Course, visits: seq<Visit>)
    requires Sound(job, c.s) && Lives(job, c)
    ensures ProceedsAlong(job, c, visits) <==> RoomAlong(job, c, visits)
    decreases |visits|
  {
    hide VisitOnce, Sound, UnderWay, Over, HeadRoom, Whole;
    if !c.over && visits != [] {
      VisitSound(job, c.s, visits[0]);
      VisitLaw(job, c.s, visits[0]);
      if HeadRoom(job, c.s, visits[0].flush) {
        RunExactly(job, VisitOnce(job, c.s, visits[0]), visits[1..]);
      }
    }
  }

  lemma OthersFit(job: Job, s: Send, flush: Sock)
    requires Sound(job, s) && (job.head ==> !job.multipart)
    ensures HeadRoom(job, s, flush)
  {
    hide ReqFlush;
    FlushLaw(job, s, flush);
  }

  /** Every request but a HEAD request for several ranges always has the room it needs. */
  lemma {:induction false} OthersHaveRoom(job: Job, c: Course, visits: seq<Visit>)
    requires Sound(job, c.s) && (job.head ==> !job.multipart)
    ensures RoomAlong(job, c, visits)
    decreases |visits|
  {
    hide VisitOnce, HeadRoom, Sound;
    if !c.over && visits != [] {
      VisitSound(job, c.s, visits[0]);
      OthersFit(job, c.s, visits[0].flush);
      OthersHaveRoom(job, VisitOnce(job, c.s, visits[0]), visits[1..]);
    }
  }

  lemma {:induction false} RunLaw(job: Job, c: Course, visits: seq<Visit>)
    requires Sound(job, c.s) && Lives(job, c) && RoomAlong(job, c, visits)
    ensures Proceeds(job, c.s, Run(job, c, visits), exists v <- visits :: Failing(v))
    decreases |visits|
  {
    hide VisitOnce, Whole, AllFit, Sendable, Failing, HeadRoom;
    if !c.over && visits != [] {
      VisitLaw(job, c.s, visits[0]);
      RunLaw(job, VisitOnce(job, c.s, visits[0]), visits[1..]);
    }
  }

  /** What is known of a response whose beginning was `s`. A freed request has sent all of it exactly
      when it has not died, no range is left and no byte stayed in the buffer; ranges are left only
      by a file that ended early, and then the wire has all but the bytes of those ranges. */
  ghost predicate Delivered(job: Job, s: Send, c: Course)
    requires Sound(job, s)
  {
    var whole := Whole(job, s);
    && Sound(job, c.s) && c.s.bufferEnd <= BUFFER_SIZE && c.s.wire <= whole
    && (c.s.status != Dead ==> c.s.wire + c.s.pending + Remaining(job, c.s) == whole)
    && (c.s.status == Dead ==> c.s.wire != whole)
    && (c.over ==> (c.s.wire == whole <==> c.s.status != Dead && c.s.ranges == [] && c.s.pending == ""))
    && (c.over && c.s.status != Dead && c.s.ranges != [] ==>
          CutShort(job, c.s) && Remaining(job, c.s) != "" && c.s.wire + Remaining(job, c.s) == whole)
  }

  lemma LivesDelivered(job: Job, s: Send, c: Course, failed: bool)
    requires Sound(job, s) && Proceeds(job, s, c, failed)
    ensures Delivered(job, s, c)
  {
    hide After, Sendable;
    var r := c.s;
    assert r.produced <= Whole(job, r);
    assert r.wire <= r.produced;
    if r.status != Dead {
      assert r.produced == r.wire + r.pending;
      assert |Whole(job, r)| == |r.wire| + |r.pending| + |Remaining(job, r)|;
      if r.ranges != [] {
        SomeLeft(job, r);
      }
      if r.pending == "" {
        assert r.wire + r.pending == r.wire;
      }
    }
  }

  lemma SomeLeft(job: Job, s: Send)
    requires Sound(job, s) && s.ranges != [] && Sendable(job, s.ranges)
    ensures !job.head ==> Remaining(job, s) != ""
  {
    hide After;
  }

  /** Delivery of files that are read, under any schedule of short, blocked and interrupted I/O. Only
      a failing file or socket kills the request. */
  lemma CopyDelivery(job: Job, s: Send, visits: seq<Visit>)
    requires UnderWay(job, s) && s.status != Dead && RoomAlong(job, Course(s, false), visits)
    ensures var c := Run(job, Course(s, false), visits);
            Delivered(job, s, c) && ((forall v <- visits :: !Failing(v)) ==> c.s.status != Dead)
  {
    hide Run, Delivered, Failing, RoomAlong;
    RunLaw(job, Course(s, false), visits);
    LivesDelivered(job, s, Run(job, Course(s, false), visits), exists v <- visits :: Failing(v));
  }

  // ----- A HEAD request that outgrows the buffer ------------------------------------------------

  /** The socket takes one byte of each flush. */
  const TRICKLE := Visit(Sent(1), DiskBlocked, SockBlocked, SockBlocked)

  /** With every visit the buffer gets one byte shorter in front and one part header longer at its end,
      until the next one does not fit. */
  lemma {:induction false} HeadTrickles(job: Job, s: Send, n: nat)
    requires UnderWay(job, s) && s.status == Transferring && job.head && job.multipart
    requires |s.pending| >= 2 && |s.ranges| > n && s.bufferEnd + 57 * n > BUFFER_SIZE
    ensures Run(job, Course(s, false), seq(n, i => TRICKLE)).s.status == Dead
    decreases n
  {
    hide UnderWay, Sound, VisitOnce;
    UnderWaySound(job, s);
    Closing(job, s);
    var visits, rest := seq(n, i => TRICKLE), seq(n - 1, i => TRICKLE);
    assert visits[0] == TRICKLE && visits[1..] == rest;
    Trickle(job, s);
    VisitSound(job, s, TRICKLE);
    var c := VisitOnce(job, s, TRICKLE);
    if c.s.status == Dead {
      StaysDead(job, c, rest);
    } else {
      HeadTrickles(job, c.s, n - 1);
    }
  }

  lemma Trickle(job: Job, s: Send)
    requires UnderWay(job, s) && s.status == Transferring && job.head && job.multipart
    requires |s.pending| >= 2 && |s.ranges| > 1
    ensures s.bufferEnd <= BUFFER_SIZE
    ensures var c := VisitOnce(job, s, TRICKLE);
            !c.over && (c.s.status == Dead ||
                        (UnderWay(job, c.s) && c.s.status == Transferring && |c.s.pending| >= 2
                         && |c.s.ranges| == |s.ranges| - 1 && c.s.bufferEnd >= s.bufferEnd + 57))
  {
    hide Flat, PartHeader, Body, After, UnderWay, CompleteResponse;
    UnderWaySound(job, s);
    Closing(job, s);
    FlushedLaw(job, s, TRICKLE.flush);
    TrickleFlush(s);
    var t := Flushed(s, TRICKLE.flush).0;
    UnderWaySound(job, t);
    HeadStep(job, t, TRICKLE.w);
    IoShuffleSound(job, t, TRICKLE.d, TRICKLE.w);
  }

  lemma TrickleFlush(s: Send)
    requires 2 <= |s.pending| <= s.bufferEnd && s.status == Transferring
    ensures var (t, result) := Flushed(s, TRICKLE.flush);
            result != -1 && t.status == Transferring && |t.pending| == |s.pending| - 1 && t.bufferEnd == s.bufferEnd
            && t.ranges == s.ranges
  {
  }

  /** The handler of a HEAD request appends a part header of at least 57 bytes, or dies. */
  lemma HeadStep(job: Job, t: Send, w: Sock)
    requires UnderWay(job, t) && t.status == Transferring && job.head && job.multipart && |t.ranges| > 1
    ensures var (r, result) := CompleteResponse(job, t, w);
            result == 1 && (r.status == Dead ||
                            (UnderWay(job, r) && r.status == Transferring && r.ranges == t.ranges[1..]
                             && |r.pending| >= |t.pending| + 57 && r.bufferEnd >= t.bufferEnd + 57))
  {
    hide Flat, PartHeader, Body, After, WriteAll;
    var popped := t.(ranges := t.ranges[1..]);
    var r := popped.ranges[0];
    PartHeaderLength(job, r);
    SomeDigits(r.start);
    SomeDigits(r.stop);
    SomeDigits(|job.file|);
    WriteAllLaw(popped, PartHeader(job, r));
    HeadDelivers(job, t, w);
  }

  lemma UnderWaySound(job: Job, s: Send)
    requires UnderWay(job, s)
    ensures Sound(job, s)
  {
  }

  lemma SomeDigits(n: nat)
    ensures |Digits(n)| >= 1
  {
  }

  lemma {:induction false} StaysDead(job: Job, c: Course, visits: seq<Visit>)
    requires Sound(job, c.s) && c.s.status == Dead
    ensures Run(job, c, visits).s.status == Dead
    decreases |visits|
  {
    if !c.over && visits != [] {
      VisitSound(job, c.s, visits[0]);
      StaysDead(job, VisitOnce(job, c.s, visits[0]), visits[1..]);
    }
  }

  /** Ranges inside the file are left as they are. */
  lemma {:induction false} FittedAlready(specs: seq<Spec>, filesize: int, k: nat)
    requires k <= |specs| && Storable(specs) && 0 < filesize < RangeList.SIGN_BIT
    requires forall i :: 0 <= i < |specs| ==> specs[i].start <= specs[i].stop < filesize && specs[i].stop != UNSIGNED_MINUS_ONE
    ensures RangeList.FitAll(specs, filesize, k) == specs[..k]
  {
    if k > 0 {
      FittedAlready(specs, filesize, k - 1);
      assert specs[k - 1].start <= specs[k - 1].stop;
      assert specs[..k] == specs[..k - 1] + [specs[k - 1]];
    }
  }

  /** A HEAD request for the first byte of a file, 73 times over ("bytes=0-0,0-0,..." has less than 300
      characters), whatever the headers and the file: no answer fails, and the request dies. */
  lemma HeadOutgrows(job: Job, headers: string)
    requires job.head && job.multipart && TypeLength(job) <= 145 && 0 < |job.file| < RangeList.SIGN_BIT
    requires 2 <= |headers| <= BUFFER_SIZE
    ensures !Failing(TRICKLE)
    ensures var s := Begun(job, seq(73, i => Spec(0, 0)), headers);
            UnderWay(job, s) && Run(job, Course(s, false), seq(72, i => TRICKLE)).s.status == Dead
  {
    var specs := seq(73, i => Spec(0, 0));
    FittedAlready(specs, |job.file|, 73);
    assert specs[..73] == specs;
    BegunIsUnderWay(job, specs, headers);
    HeadTrickles(job, Begun(job, specs, headers), 72);
  }

  // ----- Mapped files -----------------------------------------------------------------------

  /** The same for a mapped file: `w` answers the direct write and `w2` the flush after a trailer or
      of a finished response. */
  datatype GetVisit = GetVisit(flush: Sock, w: Sock, w2: Sock, last: Sock)

  predicate GetFailing(v: GetVisit) { v.flush.Broken? || v.w.Broken? || v.w2.Broken? || v.last.Broken? }

  function GetVisitOnce(job: Job, s: Send, limit: nat, v: GetVisit): Course
    requires Sound(job, s)
  {
    var (t, result) := Flushed(s, v.flush);
    FlushLaw(job, s, v.flush);
    if result == -1 then Course(t, false)
    else match t.status
      case Transferring => if t.ranges == [] then Course(t, false) else Got(job, t, limit, v)
      case Done => Finished(t, v.w2, v.last)
      case Dead => Freed(t, v.last)
  }

  function Got(job: Job, t: Send, limit: nat, v: GetVisit): Course
    requires Sound(job, t) && t.ranges != [] && t.status == Transferring
  {
    ProcessGetLaw(job, t, limit, v.w, v.w2);
    Ended(ProcessGet(job, t, limit, v.w, v.w2), v.last)
  }

  lemma GetVisitSound(job: Job, s: Send, limit: nat, v: GetVisit)
    requires Sound(job, s)
    ensures Sound(job, GetVisitOnce(job, s, limit, v).s)
  {
    hide ReqFlush, ProcessGet, Freed, Sound;
    Closing(job, s);
    FlushLaw(job, s, v.flush);
    var (t, result) := Flushed(s, v.flush);
    Closing(job, t);
    if t.status == Transferring && t.ranges != [] {
      ProcessGetLaw(job, t, limit, v.w, v.w2);
      FreedSound(job, ProcessGet(job, t, limit, v.w, v.w2).0, v.last);
    } else {
      FlushLaw(job, t, v.w2);
      FreedSound(job, ReqFlush(t, v.w2).0, v.last);
      FreedSound(job, t, v.last);
    }
  }

  /** A direct write does no harm to `t` if nothing is buffered before it, or it writes nothing. */
  predicate HarmlessGet(job: Job, t: Send, limit: nat, w: Sock)
    requires Sound(job, t) && t.ranges != []
  {
    if job.head then HeadFits(job, t) else t.pending == "" || !(w.Sent? && w.count > 0 && limit > 0)
  }

  /** The flush of a visit blocks, or leaves the direct write after it harmless. */
  predicate Harmless(job: Job, s: Send, limit: nat, v: GetVisit)
    requires Sound(job, s)
  {
    var (t, result) := Flushed(s, v.flush);
    FlushLaw(job, s, v.flush);
    result != -1 && t.status == Transferring && t.ranges != [] ==> HarmlessGet(job, t, limit, v.w)
  }

  lemma DirectInOrder(job: Job, s: Send, k: nat)
    requires s.ranges != [] && 0 <= s.ranges[0].start && s.ranges[0].start + k <= |job.file|
    requires InOrder(s) && s.pending == ""
    ensures InOrder(Direct(job, s, k))
  {
  }

  lemma DirectNothing(job: Job, s: Send)
    requires s.ranges != [] && 0 <= s.ranges[0].start <= |job.file|
    ensures Direct(job, s, 0) == s
  {
    assert [s.ranges[0]] + s.ranges[1..] == s.ranges;
    assert s.wire + "" == s.wire && s.produced + "" == s.produced;
  }

  /** `process_get` while the buffer is empty. */
  lemma ProcessGetDelivers(job: Job, s: Send, limit: nat, w: Sock, w2: Sock)
    requires UnderWay(job, s) && s.status == Transferring && !job.head && s.pending == "" && s.bufferEnd == 0
    ensures Delivers(job, s, ProcessGet(job, s, limit, w, w2).0, w.Broken? || w2.Broken?)
  {
    hide Flat, PartHeader, CompleteResponse, Transfer.Next, After, Body;
    NextFits(job, s.ranges);
    if w.Broken? {
      DiskFailure(job, s);
    }
    if w.Sent? {
      var k := Min(w.count, Min(s.ranges[0].stop - s.ranges[0].start + 1, limit));
      var t := Direct(job, s, k);
      DirectLaw(job, s, k);
      DirectInOrder(job, s, k);
      if t.ranges[0].start == t.ranges[0].stop + 1 {
        NothingLeft(job, t.ranges[0]);
        SendableTail(job, s);
        CompleteDelivers(job, t, w2);
      }
    }
  }

  /** `process_get` that writes nothing. */
  lemma ProcessGetIdles(job: Job, s: Send, limit: nat, w: Sock, w2: Sock)
    requires UnderWay(job, s) && s.status == Transferring && !job.head && !(w.Sent? && w.count > 0 && limit > 0)
    ensures Delivers(job, s, ProcessGet(job, s, limit, w, w2).0, w.Broken?)
  {
    hide CompleteResponse, After, Body, Flat, PartHeader;
    DirectNothing(job, s);
    if w.Broken? {
      DiskFailure(job, s);
    }
  }

  /** `process_get` returns 0 only for a dead request or when no range is left. */
  lemma ProcessGetEnds(job: Job, s: Send, limit: nat, w: Sock, w2: Sock)
    requires Sound(job, s) && s.ranges != [] && s.status == Transferring
    ensures var (r, result) := ProcessGet(job, s, limit, w, w2);
            result == 0 ==> r.status == Dead || r.ranges == []
  {
  }

  /** A handler that delivers and gives up only when it is done, followed by what its result means. */
  lemma FreedAfter(job: Job, s: Send, r: (Send, int), last: Sock, failed: bool)
    requires UnderWay(job, s) && s.status != Dead && Delivers(job, s, r.0, failed)
    requires r.1 == 0 ==> r.0.status == Dead || r.0.ranges == []
    ensures Proceeds(job, s, Ended(r, last), failed || last.Broken?)
  {
    hide After, Body, Freed, Sendable;
    if r.1 == 0 {
      FreedLaw(job, r.0, last);
    }
  }

  lemma GotLaw(job: Job, t: Send, limit: nat, v: GetVisit)
    requires UnderWay(job, t) && t.status == Transferring && HarmlessGet(job, t, limit, v.w)
    requires t.pending == "" ==> t.bufferEnd == 0
    ensures Proceeds(job, t, Got(job, t, limit, v), v.w.Broken? || v.w2.Broken? || v.last.Broken?)
  {
    hide After, Body, ProcessGet, Freed, Sendable, HeadFits, Delivers;
    ProcessGetEnds(job, t, limit, v.w, v.w2);
    var r := ProcessGet(job, t, limit, v.w, v.w2);
    if job.head {
      HeadGet(job, t, limit, v.w, v.w2);
      FreedAfter(job, t, r, v.last, v.w2.Broken?);
    } else if t.pending == "" {
      ProcessGetDelivers(job, t, limit, v.w, v.w2);
      FreedAfter(job, t, r, v.last, v.w.Broken? || v.w2.Broken?);
    } else {
      ProcessGetIdles(job, t, limit, v.w, v.w2);
      FreedAfter(job, t, r, v.last, v.w.Broken?);
    }
  }

  lemma HeadGet(job: Job, t: Send, limit: nat, w: Sock, w2: Sock)
    requires UnderWay(job, t) && t.status == Transferring && job.head && HeadFits(job, t)
    ensures Delivers(job, t, ProcessGet(job, t, limit, w, w2).0, w2.Broken?)
  {
    hide CompleteResponse, After, Body, Flat, PartHeader, HeadFits, Delivers;
    HeadDelivers(job, t, w2);
  }

  lemma GetVisitLaw(job: Job, s: Send, limit: nat, v: GetVisit)
    requires UnderWay(job, s) && Harmless(job, s, limit, v)
    ensures Proceeds(job, s, GetVisitOnce(job, s, limit, v), GetFailing(v))
  {
    hide After, Body, Flushed, Got, Freed, Finished, ReqFlush, Sendable, HarmlessGet;
    FlushedLaw(job, s, v.flush);
    var (t, result) := Flushed(s, v.flush);
    if s.status != Dead {
      FlushedDrains(s, v.flush);
    }
    if result != -1 && t.status == Transferring {
      GotLaw(job, t, limit, v);
    } else if result != -1 && t.status == Done {
      FinishedLaw(job, t, v.w2, v.last);
    } else if result != -1 {
      FreedLaw(job, t, v.last);
    }
  }

  // ----- Exactly when a visit to a mapped file keeps the order ----------------------------------

  /** Nothing is taken back from the wire, nor from what has been produced. */
  predicate Grows(s: Send, r: Send) { s.wire <= r.wire && s.produced <= r.produced }

  lemma GrowsTwice(a: Send, b: Send, c: Send)
    requires Grows(a, b) && Grows(b, c)
    ensures Grows(a, c)
  {
  }

  lemma FreedGrows(s: Send, last: Sock)
    requires |s.pending| <= s.bufferEnd
    ensures Grows(s, Freed(s, last).s)
  {
  }

  lemma CompleteGrows(job: Job, s: Send, w: Sock)
    requires Sound(job, s) && s.ranges != [] && s.status == Transferring
    ensures Grows(s, CompleteResponse(job, s, w).0)
  {
    hide Flat, PartHeader, WriteAll;
    var popped := s.(ranges := s.ranges[1..]);
    if job.multipart && popped.ranges != [] {
      WriteAllLaw(popped, PartHeader(job, popped.ranges[0]));
    }
  }

  /** A byte of the file overtakes the byte at the front of the buffer. */
  lemma Overtaken(t: Send, r: Send, c: char)
    requires t.produced == t.wire + t.pending && t.pending != "" && t.pending[0] != c
    requires t.wire + [c] <= r.wire && t.produced <= r.produced
    ensures !(r.wire <= r.produced)
  {
    assert r.wire[|t.wire|] == (t.wire + [c])[|t.wire|] == c;
    assert r.produced[|t.wire|] == t.produced[|t.wire|] == t.pending[0];
  }

  /** A direct write behind a buffer that is not empty, from a file of which every byte is `c`. */
  lemma GotDisorders(job: Job, t: Send, limit: nat, v: GetVisit, c: char)
    requires Sound(job, t) && t.ranges != [] && t.status == Transferring && InOrder(t) && !job.head
    requires t.ranges[0].start <= t.ranges[0].stop && t.pending != "" && t.pending[0] != c
    requires v.w.Sent? && v.w.count > 0 && limit > 0 && forall i :: 0 <= i < |job.file| ==> job.file[i] == c
    ensures var r := Got(job, t, limit, v).s; !(r.wire <= r.produced)
  {
    hide Flat, PartHeader, CompleteResponse, Freed, Direct, ProcessGet, Sound, Grows;
    var k := Min(v.w.count, Min(t.ranges[0].stop - t.ranges[0].start + 1, limit));
    NotOpen(job, t);
    var g := Direct(job, t, k);
    DirectBegins(job, t, k, c);
    ProcessGetLaw(job, t, limit, v.w, v.w2);
    var r := ProcessGet(job, t, limit, v.w, v.w2).0;
    GetGrows(job, t, limit, v.w, v.w2);
    Closing(job, r);
    FreedGrows(r, v.last);
    var e := Got(job, t, limit, v).s;
    GrowsSame(r);
    GrowsTwice(g, r, e);
    Ahead(t, g, e, c);
    Overtaken(t, e, c);
  }

  lemma DirectBegins(job: Job, t: Send, k: nat, c: char)
    requires t.ranges != [] && 0 <= t.ranges[0].start && t.ranges[0].start + k <= |job.file| && k > 0
    requires forall i :: 0 <= i < |job.file| ==> job.file[i] == c
    ensures var g := Direct(job, t, k); t.wire + [c] <= g.wire && t.produced <= g.produced
  {
    assert job.file[t.ranges[0].start..t.ranges[0].start + k][0] == c;
  }

  /** The handler takes nothing back of what its write has done. */
  lemma GetGrows(job: Job, t: Send, limit: nat, w: Sock, w2: Sock)
    requires Sound(job, t) && t.ranges != [] && t.status == Transferring && !job.head && w.Sent?
    ensures var k := Min(w.count, Min(t.ranges[0].stop - t.ranges[0].start + 1, limit));
            0 <= t.ranges[0].start && 0 <= k && t.ranges[0].start + k <= |job.file|
            && Grows(Direct(job, t, k), ProcessGet(job, t, limit, w, w2).0)
  {
    hide Flat, PartHeader, CompleteResponse, After, Body, Transfer.Next;
    var k := Min(w.count, Min(t.ranges[0].stop - t.ranges[0].start + 1, limit));
    var g := Direct(job, t, k);
    DirectLaw(job, t, k);
    if g.ranges[0].start == g.ranges[0].stop + 1 {
      CompleteGrows(job, g, w2);
    }
  }

  lemma GrowsSame(s: Send)
    ensures Grows(s, s)
  {
  }

  lemma Ahead(t: Send, g: Send, e: Send, c: char)
    requires t.wire + [c] <= g.wire && t.produced <= g.produced && Grows(g, e)
    ensures t.wire + [c] <= e.wire && t.produced <= e.produced
  {
  }

  /** For every file of this size the visit keeps the response going. */
  ghost predicate AlwaysProceeds(job: Job, s: Send, limit: nat, v: GetVisit) {
    forall file: string | |file| == |job.file| ::
      var j := job.(file := file);
      Sound(j, s) && Proceeds(j, s, GetVisitOnce(j, s, limit, v), GetFailing(v))
  }

  /** The invariant and the guard do not depend on what the file holds. */
  lemma SameSize(job: Job, file: string, s: Send, limit: nat, v: GetVisit)
    requires UnderWay(job, s) && s.status != Dead && |file| == |job.file|
    ensures var j := job.(file := file); UnderWay(j, s) && (Harmless(j, s, limit, v) <==> Harmless(job, s, limit, v))
  {
    hide Flat, ContentType, ReqFlush, Body, After;
    var j := job.(file := file);
    SameSound(job, file, s);
    FlushLaw(job, s, v.flush);
    var t := Flushed(s, v.flush).0;
    SameSound(job, file, t);
  }

  lemma SameSound(job: Job, file: string, s: Send)
    requires Sound(job, s) && |file| == |job.file|
    ensures var j := job.(file := file);
            && Sound(j, s) && (Sendable(j, s.ranges) <==> Sendable(job, s.ranges))
            && (s.ranges != [] ==> Transfer.Next(j, s.ranges) == Transfer.Next(job, s.ranges))
  {
    hide Flat, ContentType;
    var j := job.(file := file);
    assert forall i {:trigger s.ranges[i]} :: 0 <= i < |s.ranges| ==> PartHeader(j, s.ranges[i]) == PartHeader(job, s.ranges[i])
      by { SameTexts(job, file, s); }
  }

  lemma SameTexts(job: Job, file: string, s: Send)
    requires Sound(job, s) && |file| == |job.file|
    ensures forall i {:trigger s.ranges[i]} :: 0 <= i < |s.ranges| ==>
              PartHeader(job.(file := file), s.ranges[i]) == PartHeader(job, s.ranges[i])
  {
    forall i | 0 <= i < |s.ranges|
      ensures PartHeader(job.(file := file), s.ranges[i]) == PartHeader(job, s.ranges[i])
    {
      assert Fits(job, s.ranges[i]);
      assert ContentType(job.(file := file)) == ContentType(job);
    }
  }

  /** A visit keeps the response going, whatever the file holds, exactly when its direct write does no
      harm. A short flush alone does none: usually the write after it blocks. */
  lemma GetVisitExactly(job: Job, s: Send, limit: nat, v: GetVisit)
    requires UnderWay(job, s) && s.status != Dead
    ensures AlwaysProceeds(job, s, limit, v) <==> Harmless(job, s, limit, v)
  {
    hide Harmless, UnderWay, Proceeds;
    UnderWaySound(job, s);
    if Harmless(job, s, limit, v) {
      forall file: string | |file| == |job.file|
        ensures var j := job.(file := file); Sound(j, s) && Proceeds(j, s, GetVisitOnce(j, s, limit, v), GetFailing(v))
      {
        SameSize(job, file, s, limit, v);
        UnderWaySound(job.(file := file), s);
        GetVisitLaw(job.(file := file), s, limit, v);
      }
    } else {
      HarmfulVisit(job, s, limit, v);
    }
  }

  lemma HarmfulVisit(job: Job, s: Send, limit: nat, v: GetVisit)
    requires UnderWay(job, s) && s.status != Dead && !Harmless(job, s, limit, v)
    ensures !AlwaysProceeds(job, s, limit, v)
  {
    hide Flushed, ReqFlush, Got, Finished, Freed, Flat, PartHeader, Body, After, Sendable, AllFit;
    FlushedLaw(job, s, v.flush);
    var t := Flushed(s, v.flush).0;
    if job.head {
      assert job.(file := job.file) == job;
      HeadGetFails(job, t, limit, v);
    } else {
      var c := if t.pending[0] == 'a' then 'b' else 'a';
      var file := seq(|job.file|, i => c);
      SameSize(job, file, s, limit, v);
      FirstRange(job, t);
      var j := job.(file := file);
      FlushedLaw(j, s, v.flush);
      GotDisorders(j, t, limit, v, c);
      assert !Proceeds(j, s, GetVisitOnce(j, s, limit, v), GetFailing(v));
    }
  }

  lemma FirstRange(job: Job, s: Send)
    requires UnderWay(job, s) && s.status == Transferring
    ensures s.ranges != [] && s.ranges[0].start <= s.ranges[0].stop
  {
  }

  lemma HeadGetFails(job: Job, t: Send, limit: nat, v: GetVisit)
    requires UnderWay(job, t) && t.status == Transferring && job.head && !HeadFits(job, t)
    ensures var c := Got(job, t, limit, v); Sound(job, c.s) && Whole(job, c.s) != Whole(job, t)
  {
    hide Flat, PartHeader, After, Body, WriteAll;
    ProcessGetLaw(job, t, limit, v.w, v.w2);
  }

  // ----- Runs over a mapped file ----------------------------------------------------------------

  function GetRun(job: Job, c: Course, limit: nat, visits: seq<GetVisit>): (r: Course)
    requires Sound(job, c.s)
    ensures Sound(job, r.s)
    decreases |visits|
  {
    if c.over || visits == [] then c
    else
      GetVisitSound(job, c.s, limit, visits[0]);
      GetRun(job, GetVisitOnce(job, c.s, limit, visits[0]), limit, visits[1..])
  }

  /** Every visit of a run is harmless. */
  predicate HarmlessAlong(job: Job, c: Course, limit: nat, visits: seq<GetVisit>)
    requires Sound(job, c.s)
    decreases |visits|
  {
    c.over || visits == []
    || (GetVisitSound(job, c.s, limit, visits[0]);
        Harmless(job, c.s, limit, visits[0])
        && HarmlessAlong(job, GetVisitOnce(job, c.s, limit, visits[0]), limit, visits[1..]))
  }

  /** Every visit of a run keeps the response going, whatever the file holds. */
  ghost predicate AlwaysProceedsAlong(job: Job, c: Course, limit: nat, visits: seq<GetVisit>)
    requires Sound(job, c.s)
    decreases |visits|
  {
    c.over || visits == [] || c.s.status == Dead
    || (GetVisitSound(job, c.s, limit, visits[0]);
        AlwaysProceeds(job, c.s, limit, visits[0])
        && AlwaysProceedsAlong(job, GetVisitOnce(job, c.s, limit, visits[0]), limit, visits[1..]))
  }

  /** The guard is exact: every visit of a run keeps the response going, whatever the file holds, if
      and only if no direct write is harmful. */
  lemma {:induction false} GetRunExactly(job: Job, c: Course, limit: nat, visits: seq<GetVisit>)
    requires Sound(job, c.s) && Lives(job, c)
    ensures AlwaysProceedsAlong(job, c, limit, visits) <==> HarmlessAlong(job, c, limit, visits)
    decreases |visits|
  {
    hide GetVisitOnce, Sound, UnderWay, Over, Harmless, AlwaysProceeds, Whole;
    if !c.over && visits != [] {
      GetVisitSound(job, c.s, limit, visits[0]);
      if c.s.status == Dead {
        DeadIsHarmless(job, c.s, limit, visits[0]);
        OverIsHarmless(job, GetVisitOnce(job, c.s, limit, visits[0]), limit, visits[1..]);
      } else {
        GetVisitExactly(job, c.s, limit, visits[0]);
        if Harmless(job, c.s, limit, visits[0]) {
          GetVisitLaw(job, c.s, limit, visits[0]);
          GetRunExactly(job, GetVisitOnce(job, c.s, limit, visits[0]), limit, visits[1..]);
        }
      }
    }
  }

  lemma DeadIsHarmless(job: Job, s: Send, limit: nat, v: GetVisit)
    requires Sound(job, s) && s.status == Dead
    ensures Harmless(job, s, limit, v) && GetVisitOnce(job, s, limit, v).over
  {
  }

  lemma OverIsHarmless(job: Job, c: Course, limit: nat, visits: seq<GetVisit>)
    requires Sound(job, c.s) && c.over
    ensures HarmlessAlong(job, c, limit, visits)
  {
  }

  lemma {:induction false} GetRunLaw(job: Job, c: Course, limit: nat, visits: seq<GetVisit>)
    requires Sound(job, c.s) && Lives(job, c) && HarmlessAlong(job, c, limit, visits)
    ensures Proceeds(job, c.s, GetRun(job, c, limit, visits), exists v <- visits :: GetFailing(v))
    decreases |visits|
  {
    hide GetVisitOnce, Whole, AllFit, Sendable, GetFailing, Harmless;
    if !c.over && visits != [] {
      GetVisitSound(job, c.s, limit, visits[0]);
      GetVisitLaw(job, c.s, limit, visits[0]);
      GetRunLaw(job, GetVisitOnce(job, c.s, limit, visits[0]), limit, visits[1..]);
    }
  }

  /** Delivery of mapped files, under every schedule in which no direct write is harmful. */
  lemma GetDelivery(job: Job, s: Send, limit: nat, visits: seq<GetVisit>)
    requires UnderWay(job, s) && s.status != Dead && HarmlessAlong(job, Course(s, false), limit, visits)
    ensures var c := GetRun(job, Course(s, false), limit, visits);
            Delivered(job, s, c) && ((forall v <- visits :: !GetFailing(v)) ==> c.s.status != Dead)
  {
    hide GetRun, Delivered, GetFailing, HarmlessAlong;
    GetRunLaw(job, Course(s, false), limit, visits);
    LivesDelivered(job, s, GetRun(job, Course(s, false), limit, visits), exists v <- visits :: GetFailing(v));
  }

  // ----- From the first chunk to the end --------------------------------------------------------

  /** `init_get`'s chunk keeps the response going exactly when there is room. */
  lemma InitCopyDelivers(job: Job, s: Send, w: Sock)
    requires UnderWay(job, s) && s.status == Transferring
    ensures Delivers(job, s, InitCopy(job, s, w).0, w.Broken?) <==> RoomAfterCopy(job, s)
    ensures var (r, result) := InitCopy(job, s, w); Sound(job, r) && (result == 0 ==> r.status == Dead || r.ranges == [])
  {
    hide Flat, PartHeader, CompleteResponse, Transfer.Next, After, Body;
    InitCopyExactly(job, s, w);
    InitCopyEnds(job, s, w);
    if job.head {
      HeadDelivers(job, s, w);
    } else if BUFFER_SIZE - s.bufferEnd > RESERVE && RoomAfterCopy(job, s) {
      var want := s.ranges[0].stop - s.ranges[0].start + 1;
      var n := Min(BUFFER_SIZE - s.bufferEnd, want);
      TakeLaw(job, s, n);
      TakeShape(job, s, n);
      if n == want {
        NothingLeft(job, Take(job, s, n).ranges[0]);
        SendableTail(job, s);
        CompleteDelivers(job, Take(job, s, n), w);
      }
    }
  }

  lemma InitCopyEnds(job: Job, s: Send, w: Sock)
    requires Sound(job, s) && s.ranges != []
    ensures var (r, result) := InitCopy(job, s, w); result == 0 ==> r.ranges == []
  {
  }

  /** A mapped file from `init_get` on: the chunk copied into the buffer, and what its result means. */
  function FirstChunk(job: Job, s: Send, first: Sock, last: Sock): (c: Course)
    requires Sound(job, s) && s.ranges != [] && s.status == Transferring
    ensures Sound(job, c.s)
  {
    InitCopyExactly(job, s, first);
    FreedSound(job, InitCopy(job, s, first).0, last);
    Ended(InitCopy(job, s, first), last)
  }

  /** The copied chunk and the chunks written after it are the response, without gap or overlap. */
  lemma GetCourseDelivery(job: Job, s: Send, first: Sock, last: Sock, limit: nat, visits: seq<GetVisit>)
    requires UnderWay(job, s) && s.status == Transferring && RoomAfterCopy(job, s)
    requires HarmlessAlong(job, FirstChunk(job, s, first, last), limit, visits)
    ensures Delivered(job, s, GetRun(job, FirstChunk(job, s, first, last), limit, visits))
  {
    hide GetRun, Delivered, InitCopy, RoomAfterCopy, HarmlessAlong, Freed;
    InitCopyDelivers(job, s, first);
    FreedAfter(job, s, InitCopy(job, s, first), last, first.Broken?);
    var c := FirstChunk(job, s, first, last);
    GetRunLaw(job, c, limit, visits);
    LivesDelivered(job, s, GetRun(job, c, limit, visits), true);
  }

  // ----- Inputs on which delivery of a mapped file fails ------------------------------------------

  const AS := seq(8192, i => 'a')
  const MAPPED := Job(false, false, AS, None, None)

  lemma EightK()
    ensures |AS| == 8192
  {
  }

  lemma BegunMapped()
    ensures Begun(MAPPED, [Spec(0, 8191)], "HH") == Send([Spec(0, 8191)], "HH", 2, Transferring, true, "", "HH")
    ensures UnderWay(MAPPED, Begun(MAPPED, [Spec(0, 8191)], "HH"))
  {
    hide UnderWay, AS, RangeList.FitAll, RangeList.FitOne;
    EightK();
    FittedAlready([Spec(0, 8191)], 8192, 1);
    assert [Spec(0, 8191)][..1] == [Spec(0, 8191)];
    BegunIsUnderWay(MAPPED, [Spec(0, 8191)], "HH");
  }

  /** A mapped file of 8192 bytes behind the headers "HH": the flush before the first direct write
      sends one byte, the write another, and the client receives "Ha" of a response "HHaa...". */
  lemma ShortFlushDisorders(first: Sock, last: Sock)
    ensures var s := Begun(MAPPED, [Spec(0, 8191)], "HH");
            && UnderWay(MAPPED, s)
            && var c := GetRun(MAPPED, FirstChunk(MAPPED, s, first, last), 1,
                               [GetVisit(Sent(1), Sent(1), SockBlocked, SockBlocked)]);
               !c.over && c.s.status == Transferring && c.s.wire == "Ha" && !(c.s.wire <= Whole(MAPPED, s))
  {
    hide UnderWay;
    BegunMapped();
    var s := Begun(MAPPED, [Spec(0, 8191)], "HH");
    var t := Take(MAPPED, s, 4094);
    assert InitCopy(MAPPED, s, first) == (t, 1);
    var v := GetVisit(Sent(1), Sent(1), SockBlocked, SockBlocked);
    var (f, result) := Flushed(t, v.flush);
    assert f.wire == "H" && f.ranges == [Spec(4094, 8191)] && f.status == Transferring && result == 4096;
    var g := Direct(MAPPED, f, 1);
    assert g.wire == "H" + AS[4094..4095] == "Ha";
    assert ProcessGet(MAPPED, f, 1, v.w, v.w2) == (g, 1);
    assert GetVisitOnce(MAPPED, t, 1, v) == Course(g, false);
    assert [v][1..] == [];
    assert Whole(MAPPED, s)[1] == 'H';
  }

  /** A first range that just fills the buffer behind the headers, and a second one: the separator
      no longer fits, and the request is dead before anything has been sent. */
  lemma InitCopyOverflows(job: Job, headers: string, second: Spec, w: Sock)
    requires job.multipart && !job.head && BUFFER_SIZE <= |job.file| < RangeList.SIGN_BIT
    requires |headers| < BUFFER_SIZE - RESERVE && 0 <= second.start <= second.stop < |job.file|
    requires second.stop != UNSIGNED_MINUS_ONE
    ensures var specs := [Spec(0, BUFFER_SIZE - |headers| - 1), second];
            && Begun(job, specs, headers).ranges == specs && Sound(job, Begun(job, specs, headers))
            && InitCopy(job, Begun(job, specs, headers), w).0.status == Dead
  {
    hide Flat, PartHeader, WriteAll, RangeList.FitAll, RangeList.FitOne;
    var specs := [Spec(0, BUFFER_SIZE - |headers| - 1), second];
    FittedAlready(specs, |job.file|, 2);
    assert specs[..2] == specs;
    var s := Begun(job, specs, headers);
    var t := Take(job, s, BUFFER_SIZE - |headers|);
    var popped := t.(ranges := t.ranges[1..]);
    assert popped.ranges == [second];
    WriteAllLaw(popped, PartHeader(job, second));
    PartHeaderLength(job, second);
  }

  // ----- These visits are the scheduler's ------------------------------------------------------

  /** The scheduler's view of a response under way. */
  predicate Reflects(w: Requests.Work, s: Send) {
    && Requests.Mirrors(w, s)
    && (s.status == Done ==> w.status == Requests.Done)
    && (s.status == Transferring ==> w.status in {Requests.IoShuffle, Requests.Write})
  }

  /** The response and the scheduler agree on what became of request `r`: it is over exactly when its
      connection is closed or cleared for another request, and otherwise both see the same buffer. */
  predicate Agree(r: Requests.Fields, c: Course, f: Requests.Fate) {
    && (c.over <==> f.Closes? || f.r.kacount != r.kacount)
    && (!c.over ==> Reflects(f.r.work, c.s))
  }

  lemma FreedAgrees(r: Requests.Fields, s: Send, last: Sock)
    requires Reflects(r.work, s)
    ensures Agree(r, Freed(s, last), Requests.Finish(r, last))
  {
  }

  lemma FinishedAgrees(r: Requests.Fields, s: Send, a: Requests.Answers)
    requires Reflects(r.work, s) && s.status == Done
    ensures var (x, retval) := Requests.Switch(r, a);
            Agree(r, Finished(s, a.done, a.last), Requests.Dispatched(x, retval, a))
  {
    hide Requests.Finish, Freed;
    Requests.FlushAgrees(r.work, s, a.done);
    var (x, retval) := Requests.Switch(r, a);
    if retval == 0 {
      FreedAgrees(x.(timeLast := a.now), ReqFlush(s, a.done).0, a.last);
    }
  }

  /** A handler's result, and its effect on the buffer. */
  lemma EndedAgrees(r: Requests.Fields, u: (Send, int), a: Requests.Answers)
    requires r.work.status in {Requests.IoShuffle, Requests.Write} && Reflects(a.work, u.0) && u.1 == a.result
    requires u.1 in {-1, 0, 1}
    ensures var (x, retval) := Requests.Switch(r, a);
            Agree(r, Ended(u, a.last), Requests.Dispatched(x, retval, a))
  {
    hide Requests.Finish, Freed;
    if u.1 == 0 {
      FreedAgrees(r.(work := a.work, timeLast := a.now), u.0, a.last);
    }
  }

  /** A visit from the switch on. */
  function AfterFlush(job: Job, t: Send, result: int, handled: (Send, int), done: Sock, last: Sock): Course
    requires |t.pending| <= t.bufferEnd && |handled.0.pending| <= handled.0.bufferEnd
  {
    if result == -1 then Course(t, false)
    else match t.status
      case Transferring => Ended(handled, last)
      case Done => Finished(t, done, last)
      case Dead => Freed(t, last)
  }

  lemma AfterFlushAgrees(job: Job, s: Send, r: Requests.Fields, a: Requests.Answers, handled: (Send, int))
    requires Reflects(r.work, s) && |handled.0.pending| <= handled.0.bufferEnd
    requires var (t, result) := Flushed(s, a.flush);
             result != -1 && t.status == Transferring ==>
               Reflects(a.work, handled.0) && handled.1 == a.result && handled.1 in {-1, 0, 1}
    ensures var (t, result) := Flushed(s, a.flush);
            Agree(r, AfterFlush(job, t, result, handled, a.done, a.last), Requests.Visit(r, a))
  {
    hide Requests.Finish, Requests.Switch, Finished, Ended;
    Requests.FlushAgrees(r.work, s, a.flush);
    var (t, result) := Flushed(s, a.flush);
    var flushed := if s.bufferEnd > 0 then r.(work := Requests.Flush(r.work, a.flush).0) else r;
    if t.status == Dead {
      DeadAgrees(r, s, a);
    } else if result != -1 {
      match t.status {
        case Transferring => EndedAgrees(flushed, handled, a);
        case Done => FinishedAgrees(flushed, t, a);
      }
    }
  }

  lemma DeadAgrees(r: Requests.Fields, s: Send, a: Requests.Answers)
    requires Reflects(r.work, s) && Flushed(s, a.flush).0.status == Dead
    ensures Requests.Visit(r, a).Closes?
  {
  }

  /** The handler that the scheduler calls is `io_shuffle`, or `process_get`. */
  predicate Shuffles(job: Job, s: Send, v: Visit, a: Requests.Answers)
    requires Sound(job, s)
  {
    var (t, result) := Flushed(s, v.flush);
    FlushLaw(job, s, v.flush);
    result != -1 && t.status == Transferring && t.ranges != [] ==>
      Reflects(a.work, IoShuffle(job, t, v.d, v.w).0) && a.result == IoShuffle(job, t, v.d, v.w).1
  }

  predicate Gets(job: Job, s: Send, limit: nat, v: GetVisit, a: Requests.Answers)
    requires Sound(job, s)
  {
    var (t, result) := Flushed(s, v.flush);
    FlushLaw(job, s, v.flush);
    result != -1 && t.status == Transferring && t.ranges != [] ==>
      Reflects(a.work, ProcessGet(job, t, limit, v.w, v.w2).0) && a.result == ProcessGet(job, t, limit, v.w, v.w2).1
  }

  /** The response of a file that is read is the scheduler's request: on the same answers, one visit
      frees both or leaves both with the same buffer. */
  lemma VisitAgrees(job: Job, s: Send, v: Visit, r: Requests.Fields, a: Requests.Answers)
    requires UnderWay(job, s) && Reflects(r.work, s) && a.flush == v.flush && a.done == v.w && a.last == v.last
    requires Shuffles(job, s, v, a)
    ensures Agree(r, VisitOnce(job, s, v), Requests.Visit(r, a))
  {
    hide Requests.Visit, IoShuffle, Reflects, Agree, After, Body;
    FlushedLaw(job, s, v.flush);
    FlushLaw(job, s, v.flush);
    var (t, result) := Flushed(s, v.flush);
    var handled := (t, 0);
    if result != -1 && t.status == Transferring {
      handled := IoShuffle(job, t, v.d, v.w);
      IoShuffleSound(job, t, v.d, v.w);
      ShuffleResult(job, t, v.d, v.w);
    }
    AfterFlushAgrees(job, s, r, a, handled);
  }

  lemma ShuffleResult(job: Job, t: Send, d: Disk, w: Sock)
    requires Sound(job, t) && t.ranges != []
    ensures IoShuffle(job, t, d, w).1 in {-1, 0, 1}
  {
  }

  /** So it is with a mapped file. */
  lemma GetVisitAgrees(job: Job, s: Send, limit: nat, v: GetVisit, r: Requests.Fields, a: Requests.Answers)
    requires UnderWay(job, s) && Reflects(r.work, s) && a.flush == v.flush && a.done == v.w2 && a.last == v.last
    requires Gets(job, s, limit, v, a)
    ensures Agree(r, GetVisitOnce(job, s, limit, v), Requests.Visit(r, a))
  {
    hide Requests.Visit, ProcessGet, Reflects, Agree, After, Body;
    FlushedLaw(job, s, v.flush);
    FlushLaw(job, s, v.flush);
    var (t, result) := Flushed(s, v.flush);
    var handled := (t, 0);
    if result != -1 && t.status == Transferring {
      handled := ProcessGet(job, t, limit, v.w, v.w2);
      ProcessGetLaw(job, t, limit, v.w, v.w2);
      GetResult(job, t, limit, v.w, v.w2);
    }
    AfterFlushAgrees(job, s, r, a, handled);
  }

  lemma GetResult(job: Job, t: Send, limit: nat, w: Sock, w2: Sock)
    requires Sound(job, t) && t.ranges != []
    ensures ProcessGet(job, t, limit, w, w2).1 in {-1, 0, 1}
  {
  }
}
