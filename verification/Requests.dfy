/** One request as the scheduler sees it: what `process_requests` and `free_request` decide about it
    (src/request.c:302-446, 470-586), what it waits for (src/queue.c:41-67) and what wakes it
    (src/poll.c:166-202, src/select.c:158-235). Handlers are inputs. */
module Requests {
  import opened Commons
  import Transfer

  type Sock = Transfer.Sock

  /** In the order of the enumeration in src/globals.h:37-45. */
  datatype Status = ReadHeader | OneCr | OneLf | TwoCr | BodyRead | BodyWrite | Write | PipeRead | PipeWrite
    | IoShuffle | Done | TimedOut | Dead

  datatype KeepAlive = Inactive | Active | Stopped

  /** The fields that `sanitize_request` clears and that handlers may change. */
  datatype Work = Work(status: Status, keepalive: KeepAlive, responseStatus: nat, dataFd: int, postDataFd: int,
                       bufferStart: nat, bufferEnd: nat, logline: bool)

  /** All the fields but the two list pointers; handlers change only `work`. */
  datatype Fields = Fields(work: Work, pollfdId: nat, fd: int, timeLast: int, kacount: nat)

  const BLANK := Work(ReadHeader, Inactive, 0, 0, 0, 0, 0, false)
  const REQUEST_TIMEOUT := 60

  /** `status < TIMED_OUT` */
  predicate Alive(w: Work) { !w.status.TimedOut? && !w.status.Dead? }

  /** What a pollfd asks for; the events are `BOA_READ` or `BOA_WRITE`. */
  datatype Events = Readable | Writable

  datatype Pollfd = Pollfd(fd: int, events: Events)

  /** The descriptor `block_request` makes a request wait for. */
  function Interest(r: Fields): Pollfd {
    if r.work.bufferEnd != 0 then Pollfd(r.fd, Writable)
    else match r.work.status
      case IoShuffle =>
        if r.work.bufferEnd - r.work.bufferStart == 0 then Pollfd(r.work.dataFd, Readable) else Pollfd(r.fd, Writable)
      case Write => Pollfd(r.fd, Writable)
      case PipeWrite => Pollfd(r.fd, Writable)
      case Done => Pollfd(r.fd, Writable)
      case PipeRead => Pollfd(r.work.dataFd, Readable)
      case BodyWrite => Pollfd(r.work.postDataFd, Writable)
      case _ => Pollfd(r.fd, Readable)
  }

  function Unsent(w: Work): nat { if w.bufferEnd > w.bufferStart then w.bufferEnd - w.bufferStart else 0 }

  /** `req_flush`, of which only the two indexes matter here. */
  function Flush(w: Work, sock: Sock): (Work, int) {
    if !Alive(w) then (w, -2)
    else if Unsent(w) == 0 then (w.(bufferStart := 0, bufferEnd := 0), 0)
    else match sock
      case SockBlocked => (w, -1)
      case Broken => (w.(bufferStart := 0, bufferEnd := 0, status := Dead), -2)
      case Sent(count) =>
        if count < Unsent(w) then (w.(bufferStart := w.bufferStart + count), w.bufferEnd as int)
        else (w.(bufferStart := 0, bufferEnd := 0), 0)
  }

  /** The indices of `w` are those of the buffer in `s`, and both tell whether the request is dead. */
  predicate Mirrors(w: Work, s: Transfer.Send) {
    && |s.pending| <= s.bufferEnd && w.bufferEnd == s.bufferEnd && w.bufferStart + |s.pending| == s.bufferEnd
    && (!Alive(w) <==> s.status.Dead?)
  }

  /** These indices are those of the flush that moves the bytes. */
  lemma FlushAgrees(w: Work, s: Transfer.Send, sock: Sock)
    requires Mirrors(w, s)
    ensures Mirrors(Flush(w, sock).0, Transfer.ReqFlush(s, sock).0) && Flush(w, sock).1 == Transfer.ReqFlush(s, sock).1
  {
  }

  // ----- A visit of process_requests ----------------------------------------------------

  /** What the world answers during one visit: the socket for the three places that flush, the
      handler's effect and result, and the clock. */
  datatype Answers = Answers(flush: Sock, work: Work, result: int, done: Sock, last: Sock, now: int)

  /** The flush and the switch over the status: the request and `retval`. */
  function Serve(r: Fields, a: Answers): (Fields, int) {
    var flushed := if r.work.bufferEnd != 0 && Alive(r.work) then Flush(r.work, a.flush) else (r.work, 1);
    if flushed.1 == -2 then (r.(work := flushed.0.(status := Dead)), 0)
    else if flushed.1 == -1 then (r.(work := flushed.0), -1)
    else Switch(r.(work := flushed.0), a)
  }

  function Switch(r: Fields, a: Answers): (Fields, int) {
    match r.work.status
    case Done =>
      var f := Flush(r.work, a.done);
      if f.1 == -2 then (r.(work := f.0.(status := Dead)), 0) else (r.(work := f.0), if f.1 > 0 then 1 else f.1)
    case TimedOut => (r.(work := r.work.(bufferEnd := 0, keepalive := Stopped)), 0)
    case Dead => (r.(work := r.work.(bufferEnd := 0, keepalive := Stopped)), 0)
    case _ => (r.(work := a.work), a.result)
  }

  /** Where a visit leaves a request: on the ready list, on the blocked list, or free. */
  datatype Fate = Stays(r: Fields) | Waits(r: Fields) | Closes

  /** The connection is kept for another request. */
  predicate Reusable(r: Fields) {
    Alive(r.work) && r.work.keepalive == Active && 0 < r.work.responseStatus < 500 && r.kacount > 0
  }

  /** `free_request` */
  function Finish(r: Fields, sock: Sock): Fate {
    var f := if r.work.bufferEnd != 0 && Alive(r.work) then Flush(r.work.(status := Done), sock) else (r.work, 0);
    if f.1 > 0 then Stays(r.(work := f.0))
    else
      var work := if f.1 == -2 then f.0.(status := Dead) else f.0;
      var last := r.(work := if work.status == TimedOut && work.responseStatus == 0 then work.(responseStatus := 408) else work);
      if Reusable(last) then Waits(last.(work := BLANK, kacount := last.kacount - 1)) else Closes
  }

  /** What `retval` makes of a request. */
  function Dispatched(r: Fields, retval: int, a: Answers): Fate {
    if retval == -1 then Waits(r)
    else if retval == 0 then Finish(r.(timeLast := a.now), a.last)
    else if retval == 1 then Stays(r.(timeLast := a.now))
    else Stays(r.(work := r.work.(status := Dead)))
  }

  /** A whole visit. */
  function Visit(r: Fields, a: Answers): Fate { Dispatched(Serve(r, a).0, Serve(r, a).1, a) }

  /** A request that is over: its connection waits for another one if that may be, or is closed. */
  predicate Leaves(r: Fields, now: int, f: Fate) {
    if r.work.status != TimedOut && r.work.status != Dead && r.work.keepalive == Active
       && 1 <= r.work.responseStatus <= 499 && r.kacount >= 1
    then f == Waits(Fields(Work(ReadHeader, Inactive, 0, 0, 0, 0, 0, false), r.pollfdId, r.fd, now, r.kacount - 1))
    else f == Closes
  }

  /** The fate of a finished request. One with nothing unsent is over, so it never stays. Of the
      others the bytes that neither flush takes are kept, on the blocked list exactly when a socket is
      blocked. A failing socket closes the connection. */
  lemma DoneFate(r: Fields, a: Answers)
    requires r.work.status == Done
    ensures var w, f := r.work, Visit(r, a);
            var unsent := w.bufferEnd - w.bufferStart;
            if unsent <= 0 then Leaves(r, a.now, f)
            else if a.flush.SockBlocked? then f == Waits(r)
            else if a.flush.Broken? then f == Closes
            else if a.flush.count >= unsent then Leaves(r, a.now, f)
            else if a.done.SockBlocked? then f == Waits(r.(work := w.(bufferStart := w.bufferStart + a.flush.count)))
            else if a.done.Broken? then f == Closes
            else if a.flush.count + a.done.count >= unsent then Leaves(r, a.now, f)
            else f == Stays(r.(timeLast := a.now, work := w.(bufferStart := w.bufferStart + a.flush.count + a.done.count)))
  {
  }

  /** The fate of a request that a handler serves. While earlier bytes are blocked it waits, and when
      they fail it is closed, whatever the handler would do. Otherwise the results -1, 1 and 0 make it
      wait, stay, and end; the last flush of one that ends keeps it only if it is short. */
  lemma ServedFate(r: Fields, a: Answers)
    requires r.work.status !in {Done, TimedOut, Dead}
    ensures var f, x := Visit(r, a), r.(work := a.work);
            var unsent := a.work.bufferEnd - a.work.bufferStart;
            if r.work.bufferEnd > r.work.bufferStart && a.flush.SockBlocked? then f == Waits(r)
            else if r.work.bufferEnd > r.work.bufferStart && a.flush.Broken? then f == Closes
            else if a.result == -1 then f == Waits(x)
            else if a.result == 1 then f == Stays(x.(timeLast := a.now))
            else if a.result != 0 then f == Stays(x.(work := a.work.(status := Dead)))
            else if a.work.status in {TimedOut, Dead} || (unsent > 0 && a.last.Broken?) then f == Closes
            else if unsent > 0 && a.last.Sent? && a.last.count < unsent then
              f == Stays(x.(timeLast := a.now, work := a.work.(status := Done, bufferStart := a.work.bufferStart + a.last.count)))
            else Leaves(x, a.now, f)
  {
    hide Leaves;
    FinishFate(r.(work := a.work, timeLast := a.now), a.last);
    LeavesAlike(r.(work := a.work, timeLast := a.now), r.(work := a.work));
  }

  lemma FinishFate(r: Fields, sock: Sock)
    ensures var f, w := Finish(r, sock), r.work;
            var unsent := w.bufferEnd - w.bufferStart;
            if w.status in {TimedOut, Dead} || (unsent > 0 && sock.Broken?) then f == Closes
            else if unsent > 0 && sock.Sent? && sock.count < unsent then
              f == Stays(r.(work := w.(status := Done, bufferStart := w.bufferStart + sock.count)))
            else Leaves(r, r.timeLast, f)
  {
  }

  /** Visits one after the other, as long as the request stays on the ready list. */
  function Visits(r: Fields, answers: seq<Answers>): Fate
    decreases |answers|
  {
    if answers == [] then Stays(r)
    else
      var f := Visit(r, answers[0]);
      if f.Stays? then Visits(f.r, answers[1..]) else f
  }

  /** All that the sockets take in these visits. */
  function Taken(answers: seq<Answers>): nat
    requires forall a <- answers :: a.flush.Sent? && a.done.Sent?
  {
    if answers == [] then 0 else answers[0].flush.count + answers[0].done.count + Taken(answers[1..])
  }

  /** A finished request stays exactly until the sockets have taken its bytes; then it is over. */
  lemma {:induction false} DrainedExactly(r: Fields, answers: seq<Answers>) returns (now: int)
    requires r.work.status == Done && r.work.bufferStart < r.work.bufferEnd
    requires forall a <- answers :: a.flush.Sent? && a.done.Sent?
    ensures var f := Visits(r, answers);
            if Taken(answers) < r.work.bufferEnd - r.work.bufferStart then
              f.Stays? && f.r.work == r.work.(bufferStart := r.work.bufferStart + Taken(answers))
            else Leaves(r, now, f)
    decreases |answers|
  {
    hide Visit, Leaves;
    if answers == [] {
      return 0;
    }
    var a := answers[0];
    assert a in answers;
    DoneFate(r, a);
    var f := Visit(r, a);
    now := a.now;
    if f.Stays? {
      now := DrainedExactly(f.r, answers[1..]);
      LeavesAlike(r, f.r);
    }
  }

  /** Only these fields decide what happens to a request that is over. */
  lemma LeavesAlike(r: Fields, x: Fields)
    requires x.pollfdId == r.pollfdId && x.fd == r.fd && x.kacount == r.kacount
    requires x.work == r.work.(bufferStart := x.work.bufferStart)
    ensures forall now, f :: Leaves(r, now, f) <==> Leaves(x, now, f)
  {
  }

  /** A dead or timed-out request is closed by its next visit, whatever the world answers. */
  lemma DeadCloses(r: Fields, a: Answers)
    requires !Alive(r.work)
    ensures Visit(r, a).Closes?
  {
  }

  /** The bytes in the buffer of a request that is freed. It is kept on the ready list exactly when its
      last flush is short, with the bytes that are left; otherwise all its bytes have been sent
      exactly when there were none, or it was alive and the socket took them all. A dead or
      timed-out request is not flushed at all. */
  lemma FinishDropsExactly(r: Fields, s: Transfer.Send, sock: Sock)
    requires Mirrors(r.work, s)
    ensures var c, fate := Transfer.Freed(s, sock), Finish(r, sock);
            && (fate.Stays? <==> !c.over)
            && (fate.Stays? ==> Mirrors(fate.r.work, c.s) && c.s.pending != "" && c.s.wire + c.s.pending == s.wire + s.pending)
            && (!fate.Stays? ==>
                  (c.s.wire == s.wire + s.pending
                   <==> s.pending == "" || (Alive(r.work) && sock.Sent? && sock.count >= |s.pending|)))
    ensures !Alive(r.work) ==> Transfer.Freed(s, sock) == Transfer.Course(s, true)
  {
    if sock.Sent? && sock.count < |s.pending| {
      CutAt(s.wire, s.pending, sock.count);
    } else {
      CutAt(s.wire, s.pending, |s.pending|);
    }
  }

  lemma CutAt(wire: string, pending: string, k: nat)
    requires k <= |pending|
    ensures (wire + pending[..k]) + pending[k..] == wire + pending
    ensures wire + pending[..k] == wire + pending <==> k == |pending|
    ensures wire == wire + pending <==> pending == ""
  {
    assert |wire + pending| == |wire| + |pending|;
    assert pending[..|pending|] == pending;
  }

  // ----- Waking -------------------------------------------------------------------------

  datatype Config = Config(maxConnections: nat, kaMax: nat, kaTimeout: int)

  /** The `revents` of a pollfd: none, `POLLNVAL` or `POLLERR` among them, or others. */
  datatype Revents = Quiet | Trouble | Event

  predicate IdleTooLong(cfg: Config, r: Fields, now: int) {
    r.kacount < cfg.kaMax && now - r.timeLast >= cfg.kaTimeout && !r.work.logline
  }

  /** `update_blocked` for one request: the request as it is woken, or nothing if it sleeps on. */
  function Wake(cfg: Config, r: Fields, revents: Revents, now: int): Option<Fields> {
    if revents == Trouble then Some(r.(work := r.work.(status := Dead)))
    else if now - r.timeLast > REQUEST_TIMEOUT then Some(r.(work := r.work.(status := TimedOut)))
    else if IdleTooLong(cfg, r, now) then Some(r.(work := r.work.(status := TimedOut)))
    else if revents == Quiet then None
    else Some(r)
  }

  /** `fdset_update` for one request; `isSet` says whether the descriptor it waits for is ready. */
  function SelectWake(cfg: Config, r: Fields, isSet: bool, now: int): Option<Fields> {
    if IdleTooLong(cfg, r, now) || now - r.timeLast > REQUEST_TIMEOUT then Some(r.(work := r.work.(status := TimedOut)))
    else if isSet || !Alive(r.work) then Some(r)
    else None
  }

  // ----- Connections --------------------------------------------------------------------

  /** A request fresh from `new_request` for descriptor `fd`. */
  function Newcomer(cfg: Config, fd: int, now: int): Fields { Fields(BLANK, 0, fd, now, cfg.kaMax) }

  /** One over the limit: a 503 text of `text` bytes is buffered and flushed, the request is done. */
  function Refused(cfg: Config, fd: int, now: int, text: nat, sock: Sock): Fields {
    var w := Flush(BLANK.(keepalive := Stopped, responseStatus := 503, bufferEnd := text), sock).0;
    Newcomer(cfg, fd, now).(work := w.(status := Done))
  }

  // ----- The life of a connection -----------------------------------------------------------

  /** A visit that clears the request for another one on the same connection. */
  predicate Reuses(r: Fields, a: Answers) { Serve(r, a).1 == 0 && Visit(r, a).Waits? }

  /** The connection keeps its descriptor. Its count of further requests falls by one exactly when it
      is cleared for another request, and is unchanged otherwise. */
  lemma VisitKeepsConnection(r: Fields, a: Answers)
    ensures var f := Visit(r, a);
            !f.Closes? ==>
              && f.r.fd == r.fd
              && (Reuses(r, a) <==> f.r.kacount != r.kacount)
              && (Reuses(r, a) ==> r.kacount > 0 && f.r.kacount == r.kacount - 1 && f.r.work == BLANK)
  {
  }

  /** What happens to a request: it is visited, or `poll` answers while it is blocked, or another
      poll entry is given to it. */
  datatype LifeEvent = Visited(answers: Answers) | Answered(revents: Revents, now: int) | Renumbered(id: nat)

  /** How many times the connection is cleared for another request before it is closed. */
  function TimesReused(cfg: Config, r: Fields, events: seq<LifeEvent>): nat
    decreases |events|
  {
    if events == [] then 0
    else match events[0]
      case Visited(a) =>
        var f := Visit(r, a);
        if f.Closes? then 0 else (if Reuses(r, a) then 1 else 0) + TimesReused(cfg, f.r, events[1..])
      case Answered(revents, now) =>
        var woken := Wake(cfg, r, revents, now);
        TimesReused(cfg, if woken.Some? then woken.value else r, events[1..])
      case Renumbered(id) => TimesReused(cfg, r.(pollfdId := id), events[1..])
  }

  /** In every life the count bounds the further requests: a new connection serves at most
      `kaMax` requests after its first. */
  lemma {:induction false} KeepAliveBound(cfg: Config, r: Fields, events: seq<LifeEvent>)
    ensures TimesReused(cfg, r, events) <= r.kacount
    decreases |events|
  {
    hide Visit, Wake, Reuses;
    if events != [] {
      match events[0] {
        case Visited(a) =>
          VisitKeepsConnection(r, a);
          if !Visit(r, a).Closes? {
            KeepAliveBound(cfg, Visit(r, a).r, events[1..]);
          }
        case Answered(revents, now) =>
          WakeKeepsCount(cfg, r, revents, now);
          var woken := Wake(cfg, r, revents, now);
          KeepAliveBound(cfg, if woken.Some? then woken.value else r, events[1..]);
        case Renumbered(id) => KeepAliveBound(cfg, r.(pollfdId := id), events[1..]);
      }
    }
  }

  lemma WakeKeepsCount(cfg: Config, r: Fields, revents: Revents, now: int)
    ensures var woken := Wake(cfg, r, revents, now);
            woken.Some? ==> woken.value.kacount == r.kacount && woken.value.fd == r.fd
  {
  }
}
