/** Responses come to an end: the same visits as in `Courses`, when file and socket give and take at
    least one byte each time they are asked. */
module Completion {
  import opened Commons
  import opened Transfer
  import opened Courses

  predicate Takes(w: Sock) { w.Sent? && w.count > 0 }

  predicate Generous(v: Visit) { Takes(v.flush) && Takes(v.w) && Takes(v.last) && v.d.Bytes? && v.d.count > 0 }

  /** What has been written and sent so far; finishing counts too. */
  function Amount(s: Send): nat { |s.wire| + |s.produced| + if s.status == Transferring then 0 else 1 }

  /** The request is alive, and freed only when everything has been sent; if not freed it has come
      further than `amount`. */
  predicate Moves(amount: nat, c: Course) {
    && c.s.status != Dead && c.s.fileOpen
    && (if c.over then c.s.ranges == [] && c.s.pending == "" else Amount(c.s) > amount)
  }

  lemma FlushedMoves(s: Send, w: Sock)
    requires |s.pending| <= s.bufferEnd && s.status != Dead && Takes(w)
    ensures var (t, result) := Flushed(s, w);
            && result != -1 && Grows(s, t) && t.status == s.status && t.fileOpen == s.fileOpen && t.ranges == s.ranges
            && (if s.pending == "" then t.pending == "" && t.bufferEnd == 0 else |t.wire| > |s.wire|)
  {
  }

  /** The flush of `free_request`. */
  lemma FreedMoves(s: Send, last: Sock)
    requires |s.pending| <= s.bufferEnd && s.status != Dead && Takes(last)
    ensures var c := Freed(s, last);
            && Grows(s, c.s) && c.s.status != Dead && c.s.fileOpen == s.fileOpen && c.s.ranges == s.ranges
            && (s.pending == "" ==> c.over)
            && (if c.over then c.s.pending == "" else |c.s.wire| > |s.wire| && c.s.status == Done)
  {
  }

  lemma FinishedMoves(s: Send, w: Sock, last: Sock)
    requires |s.pending| <= s.bufferEnd && s.status == Done && s.ranges == [] && s.fileOpen && Takes(w) && Takes(last)
    ensures var c := Finished(s, w, last); Grows(s, c.s) && Moves(Amount(s), c)
  {
    hide Freed;
    var f := ReqFlush(s, w);
    if f.1 == 0 {
      FreedMoves(f.0, last);
    }
  }

  lemma TakeGrows(job: Job, s: Send, n: nat)
    requires s.ranges != [] && 0 <= s.ranges[0].start && s.ranges[0].start + n <= |job.file|
    ensures var t := Take(job, s, n);
            Grows(s, t) && |t.produced| == |s.produced| + n && t.fileOpen == s.fileOpen && t.status == s.status
  {
  }

  lemma WriteGrows(s: Send, w: Sock)
    requires Takes(w) && s.status == Transferring && s.fileOpen
    ensures var (r, result) := ShuffleWrite(s, w);
            && Grows(s, r) && r.status == Transferring && r.fileOpen && result == 1
            && (s.pending != "" ==> |r.wire| > |s.wire|)
  {
  }

  lemma {:induction false} WriteAllOpen(s: Send, texts: seq<string>)
    ensures var r := WriteAll(s, texts); r.fileOpen == s.fileOpen && r.status in {s.status, Dead}
  {
    if texts != [] {
      WriteAllOpen(s, texts[..|texts| - 1]);
    }
  }

  /** The end of a range writes something, or finishes the response. */
  lemma CompleteMoves(job: Job, s: Send, w: Sock)
    requires Sound(job, s) && s.ranges != [] && s.status == Transferring && s.fileOpen
    ensures var r := CompleteResponse(job, s, w).0;
            Grows(s, r) && r.fileOpen && (r.status == Transferring ==> |r.produced| > |s.produced|)
  {
    hide PartHeader, Flat, WriteAll;
    CompleteGrows(job, s, w);
    if job.multipart && |s.ranges| > 1 {
      var popped := s.(ranges := s.ranges[1..]);
      WriteAllLaw(popped, PartHeader(job, popped.ranges[0]));
      WriteAllOpen(popped, PartHeader(job, popped.ranges[0]));
      PartHeaderLength(job, popped.ranges[0]);
    }
  }

  /** `io_shuffle` behind a drained buffer reads or finishes; behind another one it takes nothing back. */
  lemma ShuffleMoves(job: Job, t: Send, d: Disk, w: Sock)
    requires UnderWay(job, t) && t.status == Transferring && t.fileOpen && HeadFits(job, t)
    requires Takes(w) && d.Bytes? && d.count > 0
    ensures var (r, result) := IoShuffle(job, t, d, w);
            && Sound(job, r) && Grows(t, r) && r.fileOpen && r.status != Dead && (result == 0 ==> r.ranges == [])
            && (t.pending == "" && t.bufferEnd == 0 ==> r.status == Done || |r.produced| > |t.produced|)
  {
    hide CompleteResponse, After, Body, Sendable, Flat, PartHeader, HeadFits, Transfer.Next;
    IoShuffleLaw(job, t, d, w);
    IoShuffleEndsExactly(job, t, d, w);
    SomeWanted(job, t);
    if job.head {
      CompleteMoves(job, t, w);
    } else if Wanted(t) <= 0 {
      WriteGrows(t, w);
    } else {
      var n := Min(d.count, Wanted(t));
      TakeLaw(job, t, n);
      TakeGrows(job, t, n);
      var u := Take(job, t, n);
      CompleteMoves(job, u, w);
      WriteGrows(u, w);
      GrowsTwice(t, u, Absorb(job, t, n, w).0);
    }
  }

  /** One visit of a request for a file that is read. */
  lemma VisitMoves(job: Job, s: Send, v: Visit)
    requires UnderWay(job, s) && s.status != Dead && s.fileOpen && Generous(v) && HeadRoom(job, s, v.flush)
    ensures Moves(Amount(s), VisitOnce(job, s, v))
  {
    hide Flushed, IoShuffle, Freed, Finished, After, Body, Sendable, HeadFits, Moves;
    FlushedLaw(job, s, v.flush);
    FlushedMoves(s, v.flush);
    var (t, result) := Flushed(s, v.flush);
    if t.status == Done {
      FinishedMoves(t, v.w, v.last);
      MovesOn(s, t, VisitOnce(job, s, v));
    } else {
      ShuffleMoves(job, t, v.d, v.w);
      CopiedMoves(job, s, t, v);
    }
  }

  lemma MovesOn(s: Send, t: Send, c: Course)
    requires Grows(s, t) && t.status == s.status && Moves(Amount(t), c)
    ensures Moves(Amount(s), c)
  {
  }

  lemma CopiedMoves(job: Job, s: Send, t: Send, v: Visit)
    requires UnderWay(job, t) && t.status == s.status == Transferring && Takes(v.last) && Grows(s, t)
    requires if s.pending == "" then t.pending == "" && t.bufferEnd == 0 else |t.wire| > |s.wire|
    requires var (r, result) := IoShuffle(job, t, v.d, v.w);
             && Sound(job, r) && Grows(t, r) && r.fileOpen && r.status != Dead && (result == 0 ==> r.ranges == [])
             && (t.pending == "" && t.bufferEnd == 0 ==> r.status == Done || |r.produced| > |t.produced|)
    ensures Moves(Amount(s), Copied(job, t, v))
  {
    hide IoShuffle, Freed, After, Body, Sendable;
    var (r, result) := IoShuffle(job, t, v.d, v.w);
    if result == 0 {
      FreedMoves(r, v.last);
    }
  }

  /** What has come about is part of the response. */
  lemma AmountBound(job: Job, s: Send)
    requires Sound(job, s) && s.wire <= s.produced
    ensures Amount(s) <= 2 * |Whole(job, s)| + 1
  {
    hide Remaining;
  }

  /** A request freed with nothing left has sent all. */
  lemma OverIsSent(job: Job, s: Send)
    requires Over(job, s) && s.status != Dead && s.ranges == [] && s.pending == ""
    ensures s.wire == Whole(job, s)
  {
    assert s.wire + "" == s.wire;
  }

  lemma {:induction false} RunCompletes(job: Job, c: Course, visits: seq<Visit>)
    requires Sound(job, c.s) && Lives(job, c) && c.s.status != Dead && c.s.fileOpen
    requires c.over ==> c.s.ranges == [] && c.s.pending == ""
    requires RoomAlong(job, c, visits) && forall v <- visits :: Generous(v)
    requires !c.over ==> |visits| > 2 * |Whole(job, c.s)| + 1 - Amount(c.s)
    ensures var r := Run(job, c, visits); r.over && r.s.wire == Whole(job, c.s)
    decreases |visits|
  {
    hide VisitOnce, HeadRoom, Generous, Whole, Over, UnderWay, Amount, Sound;
    if c.over {
      OverIsSent(job, c.s);
    } else {
      AliveBound(job, c.s);
      var v := visits[0];
      assert v in visits;
      VisitMoves(job, c.s, v);
      VisitLaw(job, c.s, v);
      RunCompletes(job, VisitOnce(job, c.s, v), visits[1..]);
    }
  }

  lemma AliveBound(job: Job, s: Send)
    requires UnderWay(job, s)
    ensures Sound(job, s) && Amount(s) <= 2 * |Whole(job, s)| + 1
  {
    AmountBound(job, s);
  }

  /** A request for a file that is read, of which file and socket give and take at least one byte
      whenever they are asked, is freed with all of its response sent, after no more visits than
      twice as many as that has bytes, and two. */
  lemma CopyCompletes(job: Job, s: Send, visits: seq<Visit>)
    requires UnderWay(job, s) && s.status != Dead && s.fileOpen && RoomAlong(job, Course(s, false), visits)
    requires (forall v <- visits :: Generous(v)) && |visits| >= 2 * |Whole(job, s)| + 2
    ensures var r := Run(job, Course(s, false), visits); r.over && r.s.wire == Whole(job, s)
  {
    RunCompletes(job, Course(s, false), visits);
  }

  // ----- Mapped files ---------------------------------------------------------------------

  predicate GetGenerous(v: GetVisit) { Takes(v.flush) && Takes(v.w) && Takes(v.w2) && Takes(v.last) }

  lemma DirectMoves(job: Job, s: Send, k: nat)
    requires s.ranges != [] && 0 <= s.ranges[0].start && s.ranges[0].start + k <= |job.file|
    ensures var g := Direct(job, s, k);
            Grows(s, g) && |g.wire| == |s.wire| + k && g.fileOpen == s.fileOpen && g.status == s.status
  {
  }

  /** `process_get` behind a drained buffer. */
  lemma GetMoves(job: Job, t: Send, limit: nat, w: Sock, w2: Sock)
    requires UnderWay(job, t) && t.status == Transferring && t.fileOpen && limit > 0 && Takes(w) && Takes(w2)
    requires HarmlessGet(job, t, limit, w) && (t.pending == "" ==> t.bufferEnd == 0)
    ensures var (r, result) := ProcessGet(job, t, limit, w, w2);
            && Sound(job, r) && Grows(t, r) && r.fileOpen && r.status != Dead && (result == 0 ==> r.ranges == [])
            && (r.status == Done || |r.wire| + |r.produced| > |t.wire| + |t.produced|)
  {
    hide CompleteResponse, After, Body, Sendable, Flat, PartHeader, Transfer.Next, HeadFits;
    ProcessGetEnds(job, t, limit, w, w2);
    if job.head {
      HeadGet(job, t, limit, w, w2);
      CompleteMoves(job, t, w2);
    } else {
      ProcessGetDelivers(job, t, limit, w, w2);
      SomeToSend(job, t);
      var k := Min(w.count, Min(t.ranges[0].stop - t.ranges[0].start + 1, limit));
      DirectLaw(job, t, k);
      DirectMoves(job, t, k);
      var g := Direct(job, t, k);
      if g.ranges[0].start == g.ranges[0].stop + 1 {
        CompleteMoves(job, g, w2);
        GrowsTwice(t, g, CompleteResponse(job, g, w2).0);
      }
    }
  }

  lemma SomeToSend(job: Job, s: Send)
    requires UnderWay(job, s) && s.status == Transferring
    ensures s.ranges != [] && s.ranges[0].start <= s.ranges[0].stop
  {
  }

  lemma GetVisitMoves(job: Job, s: Send, limit: nat, v: GetVisit)
    requires UnderWay(job, s) && s.status != Dead && s.fileOpen && limit > 0 && GetGenerous(v) && Harmless(job, s, limit, v)
    ensures Moves(Amount(s), GetVisitOnce(job, s, limit, v))
  {
    hide Flushed, ProcessGet, Freed, Finished, After, Body, Sendable, HarmlessGet, Moves;
    FlushedLaw(job, s, v.flush);
    FlushedMoves(s, v.flush);
    FlushedDrains(s, v.flush);
    var (t, result) := Flushed(s, v.flush);
    if t.status == Done {
      FinishedMoves(t, v.w2, v.last);
      MovesOn(s, t, GetVisitOnce(job, s, limit, v));
    } else {
      GetMoves(job, t, limit, v.w, v.w2);
      GotMoves(job, s, t, limit, v);
    }
  }

  lemma GotMoves(job: Job, s: Send, t: Send, limit: nat, v: GetVisit)
    requires UnderWay(job, t) && t.status == s.status == Transferring && Takes(v.last) && Grows(s, t)
    requires var (r, result) := ProcessGet(job, t, limit, v.w, v.w2);
             && Sound(job, r) && Grows(t, r) && r.fileOpen && r.status != Dead && (result == 0 ==> r.ranges == [])
             && (r.status == Done || |r.wire| + |r.produced| > |t.wire| + |t.produced|)
    ensures Moves(Amount(s), Got(job, t, limit, v))
  {
    hide ProcessGet, Freed, After, Body, Sendable;
    var (r, result) := ProcessGet(job, t, limit, v.w, v.w2);
    if result == 0 {
      FreedMoves(r, v.last);
    }
  }

  lemma {:induction false} GetRunCompletes(job: Job, c: Course, limit: nat, visits: seq<GetVisit>)
    requires Sound(job, c.s) && Lives(job, c) && c.s.status != Dead && c.s.fileOpen && limit > 0
    requires c.over ==> c.s.ranges == [] && c.s.pending == ""
    requires HarmlessAlong(job, c, limit, visits) && forall v <- visits :: GetGenerous(v)
    requires !c.over ==> |visits| > 2 * |Whole(job, c.s)| + 1 - Amount(c.s)
    ensures var r := GetRun(job, c, limit, visits); r.over && r.s.wire == Whole(job, c.s)
    decreases |visits|
  {
    hide GetVisitOnce, Harmless, GetGenerous, Whole, Over, UnderWay, Amount, Sound;
    if c.over {
      OverIsSent(job, c.s);
    } else {
      AliveBound(job, c.s);
      var v := visits[0];
      assert v in visits;
      GetVisitMoves(job, c.s, limit, v);
      GetVisitLaw(job, c.s, limit, v);
      GetRunCompletes(job, GetVisitOnce(job, c.s, limit, v), limit, visits[1..]);
    }
  }

  /** A flush that takes all there can be does no harm. */
  lemma DrainedIsHarmless(job: Job, s: Send, limit: nat, v: GetVisit)
    requires UnderWay(job, s) && Takes(v.flush) && v.flush.count >= 4096
    ensures Harmless(job, s, limit, v)
  {
    hide After, Body, Sendable, HarmlessGet;
    FlushedLaw(job, s, v.flush);
    var (t, result) := Flushed(s, v.flush);
    if s.status != Dead && t.status == Transferring {
      FlushedDrains(s, v.flush);
      EmptyIsHarmless(job, t, limit, v.w);
    }
  }

  lemma EmptyIsHarmless(job: Job, t: Send, limit: nat, w: Sock)
    requires UnderWay(job, t) && t.status == Transferring && t.pending == "" && t.bufferEnd == 0
    ensures HarmlessGet(job, t, limit, w)
  {
    hide After, Body, Sendable, Flat, PartHeader, Transfer.Next;
    NextFits(job, t.ranges);
  }

  lemma {:induction false} DrainedAlong(job: Job, c: Course, limit: nat, visits: seq<GetVisit>)
    requires Sound(job, c.s) && Lives(job, c) && forall v <- visits :: Takes(v.flush) && v.flush.count >= 4096
    ensures HarmlessAlong(job, c, limit, visits)
    decreases |visits|
  {
    hide GetVisitOnce, Harmless, Over, UnderWay, Sound, Whole;
    if !c.over && visits != [] {
      var v := visits[0];
      assert v in visits;
      AliveBound(job, c.s);
      DrainedIsHarmless(job, c.s, limit, v);
      GetVisitLaw(job, c.s, limit, v);
      GetVisitSound(job, c.s, limit, v);
      DrainedAlong(job, GetVisitOnce(job, c.s, limit, v), limit, visits[1..]);
    }
  }

  /** So is a request for a mapped file, when each flush also drains the buffer. */
  lemma GetCompletes(job: Job, s: Send, limit: nat, visits: seq<GetVisit>)
    requires UnderWay(job, s) && s.status != Dead && s.fileOpen && limit > 0 && |visits| >= 2 * |Whole(job, s)| + 2
    requires forall v <- visits :: GetGenerous(v) && v.flush.count >= 4096
    ensures var r := GetRun(job, Course(s, false), limit, visits); r.over && r.s.wire == Whole(job, s)
  {
    DrainedAlong(job, Course(s, false), limit, visits);
    GetRunCompletes(job, Course(s, false), limit, visits);
  }
}
