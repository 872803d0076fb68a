/** The scheduler on values: which requests are ready and blocked, in list order, how many nodes are
    free, the connection count and the poll entries (src/request.c:53-258, 458-588; src/queue.c:36-68;
    src/poll.c:43-204; src/select.c:53-133). The outside world is an input of every step. */
module Scheduler {
  import opened Commons
  import opened Requests
  import opened Queues

  /** `pfds` is the part of the current pollfd array in use. */
  datatype State = State(ready: seq<Fields>, block: seq<Fields>, free: nat, total: nat, pending: bool, pfds: seq<Pollfd>)

  /** The size of a poll array, `FD_SETSIZE`. */
  const MAX_FD := 1024

  const INITIAL := State([], [], 0, 0, false, [])

  // ----- Steps --------------------------------------------------------------------------

  /** One `accept`: it gives none; or an unusable descriptor; or a connection, for which there may be
      no memory, and whose set-up may fail. `text` and `sock` are for refusing it. */
  datatype Accept = NoConnection | BadSocket
    | Connection(fd: int, memory: bool, usable: bool, text: nat, sock: Sock)

  /** `get_request` and the `new_request` it calls. */
  function GetRequest(cfg: Config, s: State, a: Accept, now: int): State {
    match a
    case NoConnection => s.(pending := false)
    case BadSocket => s
    case Connection(fd, memory, usable, text, sock) =>
      if s.free == 0 && !memory then s
      else
        var left := if s.free > 0 then s.free - 1 else 0;
        if !usable then s.(free := left + 1)
        else if s.total + 1 > cfg.maxConnections then
          s.(free := left, total := s.total + 1, pending := false, ready := [Refused(cfg, fd, now, text, sock)] + s.ready)
        else s.(free := left, total := s.total + 1, ready := [Newcomer(cfg, fd, now)] + s.ready)
  }

  function Arrive(cfg: Config, s: State, a: Accept, now: int): State {
    if s.pending then GetRequest(cfg, s, a, now) else s
  }

  /** The request at position `p` of the ready list goes where its visit sends it. A blocked one gets
      the next poll entry. */
  function Settle(s: State, p: nat, f: Fate): State
    requires p < |s.ready|
  {
    match f
    case Stays(r) => s.(ready := s.ready[p := r])
    case Waits(r) =>
      s.(ready := Without(s.ready, p), block := [r.(pollfdId := |s.pfds|)] + s.block, pfds := s.pfds + [Interest(r)])
    case Closes => s.(ready := Without(s.ready, p), total := if s.total > 0 then s.total - 1 else 0, free := s.free + 1)
  }

  /** What a request was before it is settled makes no difference. */
  lemma SettleTwice(s: State, p: nat, r: Fields, f: Fate)
    requires p < |s.ready|
    ensures Settle(Settle(s, p, Stays(r)), p, f) == Settle(s, p, f)
  {
    assert s.ready[p := r][..p] == s.ready[..p] && s.ready[p := r][p + 1..] == s.ready[p + 1..];
  }

  /** All the answers of one visit; the connection accepted during it is in `accept`. */
  datatype Turn = Turn(answers: Answers, accept: Accept)

  /** The scan of `process_requests` from the request that has `n - 1` others behind it. New requests
      are put in front, so that the ones to come are always the last `n` of the list. */
  function Scan(cfg: Config, s: State, n: nat, turns: nat -> Turn): State
    requires n <= |s.ready|
    decreases n
  {
    if n == 0 then s else Scan(cfg, Step(cfg, s, n, turns(n)), n - 1, turns)
  }

  function Step(cfg: Config, s: State, n: nat, t: Turn): (r: State)
    requires 0 < n <= |s.ready|
    ensures n - 1 <= |r.ready|
  {
    var fate := Visit(s.ready[|s.ready| - n], t.answers);
    var met := Arrive(cfg, s, t.accept, t.answers.now);
    Settle(met, |met.ready| - n, fate)
  }

  lemma ScanStep(cfg: Config, s: State, n: nat, turns: nat -> Turn)
    requires 0 < n <= |s.ready|
    ensures Scan(cfg, s, n, turns) == Scan(cfg, Step(cfg, s, n, turns(n)), n - 1, turns)
  {
  }

  lemma ScanNone(cfg: Config, s: State, turns: nat -> Turn)
    ensures Scan(cfg, s, 0, turns) == s
  {
  }

  /** Serving a request before a connection is accepted, or after, comes to the same. */
  lemma ServeThenArrive(cfg: Config, s: State, p: nat, x: Fields, a: Accept, now: int, f: Fate)
    requires p < |s.ready|
    ensures var first, met := Arrive(cfg, s.(ready := s.ready[p := x]), a, now), Arrive(cfg, s, a, now);
            var q := |met.ready| - (|s.ready| - p);
            && |first.ready| == |met.ready| && 0 <= q < |met.ready|
            && Settle(first, q, f) == Settle(met, q, f)
  {
    hide Refused;
    var first, met := Arrive(cfg, s.(ready := s.ready[p := x]), a, now), Arrive(cfg, s, a, now);
    var q := |met.ready| - (|s.ready| - p);
    assert first == Settle(met, q, Stays(x));
    SettleTwice(met, q, x, f);
  }

  /** A request has been served, and a connection accepted meanwhile. */
  function Attended(cfg: Config, s: State, p: nat, t: Turn): State
    requires p < |s.ready|
  {
    Arrive(cfg, s.(ready := s.ready[p := Serve(s.ready[p], t.answers).0]), t.accept, t.answers.now)
  }

  /** A step, taken in the order of the code: serve, accept, settle. */
  lemma StepByParts(cfg: Config, s: State, p: nat, t: Turn)
    requires p < |s.ready|
    ensures var (served, result) := Serve(s.ready[p], t.answers);
            var first, n := Attended(cfg, s, p, t), |s.ready| - p;
            && n <= |first.ready| && Settle(first, |first.ready| - n, Dispatched(served, result, t.answers)) == Step(cfg, s, n, t)
  {
    hide Serve, Dispatched, Settle, Arrive;
    ServeThenArrive(cfg, s, p, Serve(s.ready[p], t.answers).0, t.accept, t.answers.now, Visit(s.ready[p], t.answers));
  }

  /** `process_requests` */
  function Pass(cfg: Config, s: State, first: Accept, now: int, turns: nat -> Turn): State {
    var met := Arrive(cfg, s, first, now);
    Scan(cfg, met, |met.ready|, turns)
  }

  /** `update_blocked` from the request with `n - 1` others behind it: `polled` is the array polled,
      `s.pfds` the other one being filled, and `wake` decides. */
  function Update(s: State, n: nat, polled: seq<Pollfd>, wake: Fields -> Option<Fields>): State
    requires n <= |s.block|
    decreases n
  {
    if n == 0 then s else Update(UpdateStep(s, n, polled, wake), n - 1, polled, wake)
  }

  function UpdateStep(s: State, n: nat, polled: seq<Pollfd>, wake: Fields -> Option<Fields>): (r: State)
    requires 0 < n <= |s.block|
    ensures n - 1 <= |r.block|
  {
    var p := |s.block| - n;
    var r := s.block[p];
    match wake(r)
    case Some(woken) => s.(block := Without(s.block, p), ready := [woken] + s.ready)
    case None =>
      if r.pollfdId < |polled| then
        s.(block := s.block[p := r.(pollfdId := |s.pfds|)], pfds := s.pfds + [polled[r.pollfdId]])
      else s
  }

  lemma UpdateUnfold(s: State, n: nat, polled: seq<Pollfd>, wake: Fields -> Option<Fields>)
    requires 0 < n <= |s.block|
    ensures Update(s, n, polled, wake) == Update(UpdateStep(s, n, polled, wake), n - 1, polled, wake)
  {
  }

  lemma UpdateNone(s: State, polled: seq<Pollfd>, wake: Fields -> Option<Fields>)
    ensures Update(s, 0, polled, wake) == s
  {
  }

  // ----- What every step keeps ----------------------------------------------------------

  /** The connection count is that of the live requests, and at most one over the limit. */
  predicate Counted(cfg: Config, s: State) {
    && s.total == |s.ready| + |s.block| && s.total <= cfg.maxConnections + 1
    && (s.pending ==> s.total <= cfg.maxConnections)
  }

  /** The request owns a poll entry that names its own descriptor and interest. */
  predicate Owns(r: Fields, pfds: seq<Pollfd>) { r.pollfdId < |pfds| && pfds[r.pollfdId] == Interest(r) }

  /** So do all the blocked ones, each another. */
  predicate Polled(block: seq<Fields>, pfds: seq<Pollfd>) {
    && (forall r <- block :: Owns(r, pfds))
    && (forall i, j :: 0 <= i < j < |block| ==> block[i].pollfdId != block[j].pollfdId)
  }

  /** What `accept` does when a connection is pending. With the limit's number of connections, or more,
      the new one is taken only to be refused, its text flushed once, and no further one is accepted;
      below the limit it is ready to be read from, and others may follow. */
  lemma ArrivalExactly(cfg: Config, s: State, a: Accept, now: int)
    requires s.pending
    ensures var r := Arrive(cfg, s, a, now);
            match a
            case NoConnection => r == s.(pending := false)
            case BadSocket => r == s
            case Connection(fd, memory, usable, text, sock) =>
              if s.free == 0 && !memory then r == s
              else if !usable then r == s.(free := if s.free == 0 then 1 else s.free)
              else
                && r.total == s.total + 1 && r.free == (if s.free == 0 then 0 else s.free - 1)
                && |r.ready| == |s.ready| + 1 && r.ready[1..] == s.ready && r.block == s.block && r.pfds == s.pfds
                && (r.pending <==> s.total < cfg.maxConnections) && Greeted(cfg, r.ready[0], a, now, s.total)
                && (s.total >= cfg.maxConnections && text > 0 ==>
                      var w := r.ready[0].work;
                      if sock.Broken? || (sock.Sent? && sock.count >= text) then w.bufferEnd == 0
                      else w.bufferEnd == text && w.bufferStart == if sock.Sent? then sock.count else 0)
  {
  }

  lemma PolledCons(r: Fields, block: seq<Fields>, pfds: seq<Pollfd>)
    requires Polled(block, pfds)
    ensures Polled([r.(pollfdId := |pfds|)] + block, pfds + [Interest(r)])
  {
    var b, p := [r.(pollfdId := |pfds|)] + block, pfds + [Interest(r)];
    assert Owns(b[0], p);
    forall i | 0 < i < |b|
      ensures Owns(b[i], p) && b[i].pollfdId < |pfds|
    {
      assert b[i] == block[i - 1] && Owns(block[i - 1], pfds);
    }
  }

  lemma ArriveKeeps(cfg: Config, s: State, a: Accept, now: int)
    requires Counted(cfg, s)
    ensures var r := Arrive(cfg, s, a, now);
            && Counted(cfg, r) && r.block == s.block && r.pfds == s.pfds
            && |s.ready| <= |r.ready| <= |s.ready| + 1 && r.ready[|r.ready| - |s.ready|..] == s.ready
  {
    hide Refused;
  }

  lemma SettleKeeps(cfg: Config, s: State, p: nat, f: Fate)
    requires Counted(cfg, s) && p < |s.ready|
    ensures var r := Settle(s, p, f);
            Counted(cfg, r) && |r.pfds| - |r.block| == |s.pfds| - |s.block|
            && (Polled(s.block, s.pfds) ==> Polled(r.block, r.pfds))
  {
    hide Polled;
    if f.Waits? && Polled(s.block, s.pfds) {
      PolledCons(f.r, s.block, s.pfds);
    }
  }

  /** While a request is being visited there is a poll entry left for it. */
  lemma RoomToSettle(cfg: Config, s: State, p: nat, t: Turn)
    requires Counted(cfg, s) && |s.pfds| == |s.block| && p < |s.ready| && cfg.maxConnections <= MAX_FD - 20
    ensures var met := Attended(cfg, s, p, t); met.total > 0 && |met.pfds| < MAX_FD
  {
    ArriveKeeps(cfg, s.(ready := s.ready[p := Serve(s.ready[p], t.answers).0]), t.accept, t.answers.now);
  }

  lemma StepKeeps(cfg: Config, s: State, n: nat, t: Turn)
    requires Counted(cfg, s) && 0 < n <= |s.ready|
    ensures var r := Step(cfg, s, n, t);
            && Counted(cfg, r) && |r.pfds| - |r.block| == |s.pfds| - |s.block|
            && (Polled(s.block, s.pfds) ==> Polled(r.block, r.pfds))
  {
    hide Visit, Polled, Counted, Arrive, Settle;
    ArriveKeeps(cfg, s, t.accept, t.answers.now);
    var met := Arrive(cfg, s, t.accept, t.answers.now);
    SettleKeeps(cfg, met, |met.ready| - n, Visit(s.ready[|s.ready| - n], t.answers));
  }

  // ----- A whole pass over the ready list -----------------------------------------------

  /** The requests of a list that stay ready, in order; `turns` is indexed by how many are left. */
  function Stayers(todo: seq<Fields>, turns: nat -> Turn): seq<Fields> {
    if todo == [] then []
    else
      var f, rest := Visit(todo[0], turns(|todo|).answers), Stayers(todo[1..], turns);
      if f.Stays? then [f.r] + rest else rest
  }

  /** Those that block, in order, with successive poll entries from `id` on. */
  function Waiters(todo: seq<Fields>, turns: nat -> Turn, id: nat): seq<Fields> {
    if todo == [] then []
    else
      var f := Visit(todo[0], turns(|todo|).answers);
      if f.Waits? then [f.r.(pollfdId := id)] + Waiters(todo[1..], turns, id + 1) else Waiters(todo[1..], turns, id)
  }

  /** How many connections are closed. */
  function Closed(todo: seq<Fields>, turns: nat -> Turn): nat {
    if todo == [] then 0
    else Closed(todo[1..], turns) + if Visit(todo[0], turns(|todo|).answers).Closes? then 1 else 0
  }

  function Interests(s: seq<Fields>): seq<Pollfd> { if s == [] then [] else [Interest(s[0])] + Interests(s[1..]) }

  /** A request as `get_request` leaves it when there are `total` others: at the limit it has been
      refused, and below it nothing has been done for it. */
  predicate Greeted(cfg: Config, r: Fields, a: Accept, now: int, total: int) {
    && a.Connection? && r.fd == a.fd && r.timeLast == now && r.kacount == cfg.kaMax && r.pollfdId == 0
    && if total >= cfg.maxConnections then
         r.work.status == Done && r.work.responseStatus == 503 && r.work.keepalive == Stopped
       else r.work == Work(ReadHeader, Inactive, 0, 0, 0, 0, 0, false)
  }

  /** How many connections are closed before the one with `left` requests still to visit. */
  function ClosedBefore(todo: seq<Fields>, turns: nat -> Turn, left: nat): int
    requires left <= |todo|
  {
    Closed(todo, turns) - Closed(todo[|todo| - left..], turns)
  }

  /** `r` follows from `s` by visiting exactly the requests of `todo`, the end of the ready list
      behind `kept`: `arrived` are the new ones in front, each accepted when as many as `lefts` says were
      still to be settled, and refused exactly when the connections of that moment reach the limit. */
  predicate Visited(cfg: Config, s: State, kept: seq<Fields>, todo: seq<Fields>, turns: nat -> Turn, arrived: seq<Fields>,
                    lefts: seq<nat>, r: State) {
    && r.ready == arrived + kept + Stayers(todo, turns)
    && r.block == Reverse(Waiters(todo, turns, |s.pfds|)) + s.block
    && r.pfds == s.pfds + Interests(Waiters(todo, turns, |s.pfds|))
    && r.total + Closed(todo, turns) == s.total + |arrived|
    && |lefts| == |arrived|
    && forall i :: 0 <= i < |arrived| ==> ArrivedWith(cfg, s.total + |arrived| - 1 - i, todo, turns, arrived[i], lefts[i])
  }

  /** `x` was accepted with `left` requests still to be settled, and no closed one among the `total` others. */
  predicate ArrivedWith(cfg: Config, total: int, todo: seq<Fields>, turns: nat -> Turn, x: Fields, left: nat) {
    && 0 < left <= |todo|
    && Greeted(cfg, x, turns(left).accept, turns(left).answers.now, total - ClosedBefore(todo, turns, left))
  }

  /** What one step makes of the list `kept + todo`. */
  predicate Stepped(cfg: Config, s: State, kept: seq<Fields>, todo: seq<Fields>, f: Fate, t: Turn, arrived: seq<Fields>,
                    r: State)
    requires todo != []
  {
    && r.ready == arrived + kept + (if f.Stays? then [f.r] + todo[1..] else todo[1..])
    && r.block == (if f.Waits? then [f.r.(pollfdId := |s.pfds|)] + s.block else s.block)
    && r.pfds == (if f.Waits? then s.pfds + [Interest(f.r)] else s.pfds)
    && r.total + (if f.Closes? then 1 else 0) == s.total + |arrived|
    && |arrived| <= 1 && (|arrived| == 1 ==> Greeted(cfg, arrived[0], t.accept, t.answers.now, s.total))
  }

  /** The requests that `Arrive` puts in front. */
  function Arrivals(cfg: Config, s: State, a: Accept, now: int): seq<Fields> {
    var r := Arrive(cfg, s, a, now);
    if |r.ready| > |s.ready| then r.ready[..|r.ready| - |s.ready|] else []
  }

  lemma ArriveShape(cfg: Config, s: State, a: Accept, now: int)
    ensures var r, arrived := Arrive(cfg, s, a, now), Arrivals(cfg, s, a, now);
            && r.ready == arrived + s.ready && r.block == s.block && r.pfds == s.pfds && r.total == s.total + |arrived|
            && |arrived| <= 1 && (|arrived| == 1 ==> Greeted(cfg, arrived[0], a, now, s.total))
  {
  }

  lemma StepShape(cfg: Config, s: State, kept: seq<Fields>, todo: seq<Fields>, t: Turn)
    requires s.ready == kept + todo && todo != [] && s.total >= |s.ready|
    ensures Stepped(cfg, s, kept, todo, Visit(todo[0], t.answers), t, Arrivals(cfg, s, t.accept, t.answers.now),
                    Step(cfg, s, |todo|, t))
  {
    hide Visit, Arrive, Arrivals, Greeted;
    ArriveShape(cfg, s, t.accept, t.answers.now);
    var f, met := Visit(todo[0], t.answers), Arrive(cfg, s, t.accept, t.answers.now);
    var arrived := Arrivals(cfg, s, t.accept, t.answers.now);
    var p := |arrived + kept|;
    assert met.ready == (arrived + kept) + todo;
    assert met.ready[p := todo[0]] == met.ready;
    assert Without(met.ready, p) == (arrived + kept) + todo[1..];
    assert f.Stays? ==> met.ready[p := f.r] == (arrived + kept) + ([f.r] + todo[1..]);
  }

  lemma Regroup<T>(a: seq<T>, b: seq<T>, c: seq<T>)
    ensures a + (b + c) == (a + b) + c
  {
  }

  lemma InterestsCons(x: Fields, s: seq<Fields>)
    ensures Interests([x] + s) == [Interest(x)] + Interests(s)
  {
    assert ([x] + s)[1..] == s;
  }

  lemma WaitersCons(todo: seq<Fields>, turns: nat -> Turn, f: Fate, id: nat)
    requires todo != [] && f == Visit(todo[0], turns(|todo|).answers) && f.Waits?
    ensures Waiters(todo, turns, id) == [f.r.(pollfdId := id)] + Waiters(todo[1..], turns, id + 1)
  {
  }

  lemma WaitersStep(x: Fields, rest: seq<Fields>, block: seq<Fields>, pfds: seq<Pollfd>)
    ensures Reverse([x] + rest) + block == Reverse(rest) + ([x] + block)
    ensures pfds + Interests([x] + rest) == (pfds + [Interest(x)]) + Interests(rest)
  {
    hide Reverse, Interests, Interest;
    ReverseCons(x, rest, block);
    InterestsCons(x, rest);
    Regroup(pfds, [Interest(x)], Interests(rest));
  }

  lemma StayersStep(kept: seq<Fields>, todo: seq<Fields>, turns: nat -> Turn, first: seq<Fields>, rest: seq<Fields>, f: Fate)
    requires todo != [] && f == Visit(todo[0], turns(|todo|).answers)
    ensures rest + (first + kept + if f.Stays? then [f.r] else []) + Stayers(todo[1..], turns)
         == (rest + first) + kept + Stayers(todo, turns)
  {
    hide Visit;
    Shift(rest, first, kept, if f.Stays? then [f.r] else [], Stayers(todo[1..], turns));
  }

  lemma Shift<T>(rest: seq<T>, first: seq<T>, kept: seq<T>, one: seq<T>, stay: seq<T>)
    ensures rest + (first + kept + one) + stay == (rest + first) + kept + (one + stay)
    ensures one == [] ==> one + stay == stay
  {
  }

  /** The same arrivals, seen from one request earlier. */
  lemma ArrivedStep(cfg: Config, s: State, kept: seq<Fields>, todo: seq<Fields>, turns: nat -> Turn, first: seq<Fields>,
                    next: State, rest: seq<Fields>, lefts: seq<nat>)
    requires todo != []
    requires Stepped(cfg, s, kept, todo, Visit(todo[0], turns(|todo|).answers), turns(|todo|), first, next)
    requires |lefts| == |rest| && forall i :: 0 <= i < |rest| ==>
               ArrivedWith(cfg, next.total + |rest| - 1 - i, todo[1..], turns, rest[i], lefts[i])
    ensures var arrived, ls := rest + first, lefts + if first == [] then [] else [|todo|];
            |ls| == |arrived| && forall i :: 0 <= i < |arrived| ==>
              ArrivedWith(cfg, s.total + |arrived| - 1 - i, todo, turns, arrived[i], ls[i])
  {
    hide Visit, Greeted, Reverse, Interests;
    var arrived, ls := rest + first, lefts + if first == [] then [] else [|todo|];
    forall i | 0 <= i < |arrived|
      ensures ArrivedWith(cfg, s.total + |arrived| - 1 - i, todo, turns, arrived[i], ls[i])
    {
      if i < |rest| {
        assert arrived[i] == rest[i] && ls[i] == lefts[i];
        assert ArrivedWith(cfg, next.total + |rest| - 1 - i, todo[1..], turns, rest[i], lefts[i]);
        assert todo[1..][|todo| - 1 - ls[i]..] == todo[|todo| - ls[i]..];
      } else {
        assert arrived[i] == first[0] && todo[0..] == todo;
      }
    }
  }

  lemma VisitedStep(cfg: Config, s: State, kept: seq<Fields>, todo: seq<Fields>, turns: nat -> Turn, first: seq<Fields>,
                    next: State, kept': seq<Fields>, rest: seq<Fields>, lefts: seq<nat>, r: State)
    requires todo != []
    requires Stepped(cfg, s, kept, todo, Visit(todo[0], turns(|todo|).answers), turns(|todo|), first, next)
    requires var f := Visit(todo[0], turns(|todo|).answers); kept' == first + kept + if f.Stays? then [f.r] else []
    requires Visited(cfg, next, kept', todo[1..], turns, rest, lefts, r)
    ensures Visited(cfg, s, kept, todo, turns, rest + first, lefts + if first == [] then [] else [|todo|], r)
  {
    hide Visit, ArrivedWith, Stayers, Reverse, Interests, Greeted;
    ArrivedStep(cfg, s, kept, todo, turns, first, next, rest, lefts);
    var f := Visit(todo[0], turns(|todo|).answers);
    StayersStep(kept, todo, turns, first, rest, f);
    if f.Waits? {
      var x := f.r.(pollfdId := |s.pfds|);
      WaitersCons(todo, turns, f, |s.pfds|);
      WaitersStep(x, Waiters(todo[1..], turns, |s.pfds| + 1), s.block, s.pfds);
      assert Interest(x) == Interest(f.r);
    }
  }

  lemma VisitedNone(cfg: Config, s: State, kept: seq<Fields>, turns: nat -> Turn)
    requires s.ready == kept
    ensures Visited(cfg, s, kept, [], turns, [], [], s)
  {
    assert [] + kept + [] == s.ready && [] + s.block == s.block && s.pfds + [] == s.pfds;
  }

  lemma SteppedReady(cfg: Config, s: State, kept: seq<Fields>, todo: seq<Fields>, f: Fate, t: Turn,
                     first: seq<Fields>, r: State)
    requires todo != [] && Stepped(cfg, s, kept, todo, f, t, first, r)
    ensures r.ready == (first + kept + if f.Stays? then [f.r] else []) + todo[1..]
  {
  }

  /** The scan visits every request of `todo` exactly once, in list order, and no other. */
  lemma {:induction false} ScanLaw(cfg: Config, s: State, kept: seq<Fields>, todo: seq<Fields>, turns: nat -> Turn)
      returns (arrived: seq<Fields>, lefts: seq<nat>)
    requires s.ready == kept + todo && Counted(cfg, s)
    ensures Visited(cfg, s, kept, todo, turns, arrived, lefts, Scan(cfg, s, |todo|, turns))
    decreases |todo|
  {
    hide Visit, Visited, Stepped, Arrivals, Step, Counted;
    if todo == [] {
      arrived, lefts := [], [];
      assert s.ready == kept;
      VisitedNone(cfg, s, kept, turns);
    } else {
      var n, t := |todo|, turns(|todo|);
      var f, next := Visit(todo[0], t.answers), Step(cfg, s, n, t);
      var first := Arrivals(cfg, s, t.accept, t.answers.now);
      CountedReady(cfg, s);
      StepShape(cfg, s, kept, todo, t);
      SteppedReady(cfg, s, kept, todo, f, t, first, next);
      StepKeeps(cfg, s, n, t);
      var kept' := first + kept + if f.Stays? then [f.r] else [];
      var rest, ls := ScanLaw(cfg, next, kept', todo[1..], turns);
      arrived, lefts := rest + first, ls + if first == [] then [] else [n];
      VisitedStep(cfg, s, kept, todo, turns, first, next, kept', rest, ls, Scan(cfg, s, n, turns));
    }
  }

  lemma CountedReady(cfg: Config, s: State)
    requires Counted(cfg, s)
    ensures s.total >= |s.ready|
  {
  }

  /** One pass: with the request accepted first, if any, every request that is ready at the start of
      the scan is visited exactly once, in list order; each ends where its own visit sends it, and
      what arrives during the scan waits, unvisited, in front, refused exactly at the limit. */
  lemma PassLaw(cfg: Config, s: State, first: Accept, now: int, turns: nat -> Turn)
    requires Counted(cfg, s)
    ensures var met := Arrive(cfg, s, first, now);
            exists arrived, lefts ::
              Visited(cfg, met, [], met.ready, turns, arrived, lefts, Pass(cfg, s, first, now, turns))
  {
    hide Visited, Arrive;
    ArriveKeeps(cfg, s, first, now);
    var met := Arrive(cfg, s, first, now);
    assert [] + met.ready == met.ready;
    var arrived, lefts := ScanLaw(cfg, met, [], met.ready, turns);
    assert Visited(cfg, met, [], met.ready, turns, arrived, lefts, Pass(cfg, s, first, now, turns));
  }

  lemma {:induction false} ScanKeeps(cfg: Config, s: State, n: nat, turns: nat -> Turn)
    requires Counted(cfg, s) && n <= |s.ready|
    ensures var r := Scan(cfg, s, n, turns);
            && Counted(cfg, r) && |r.pfds| - |r.block| == |s.pfds| - |s.block|
            && (Polled(s.block, s.pfds) ==> Polled(r.block, r.pfds))
    decreases n
  {
    hide Counted, Polled, Step;
    if n > 0 {
      StepKeeps(cfg, s, n, turns(n));
      ScanKeeps(cfg, Step(cfg, s, n, turns(n)), n - 1, turns);
    }
  }

  /** The request is where its visit sends it. */
  ghost predicate SettledAs(r: State, f: Fate) {
    match f
    case Stays(x) => x in r.ready
    case Waits(x) => exists id :: x.(pollfdId := id) in r.block
    case Closes => true
  }

  lemma {:induction false} StayersHave(todo: seq<Fields>, turns: nat -> Turn, k: nat)
    requires k < |todo|
    ensures var f := Visit(todo[k], turns(|todo| - k).answers); f.Stays? ==> f.r in Stayers(todo, turns)
  {
    hide Visit;
    if k > 0 {
      StayersHave(todo[1..], turns, k - 1);
    }
  }

  lemma {:induction false} WaitersHave(todo: seq<Fields>, turns: nat -> Turn, id: nat, k: nat) returns (found: nat)
    requires k < |todo|
    ensures var f := Visit(todo[k], turns(|todo| - k).answers);
            f.Waits? ==> f.r.(pollfdId := found) in Waiters(todo, turns, id)
  {
    hide Visit;
    if k > 0 {
      found := WaitersHave(todo[1..], turns, if Visit(todo[0], turns(|todo|).answers).Waits? then id + 1 else id, k - 1);
    } else {
      found := id;
    }
  }

  lemma {:induction false} ReverseHas(s: seq<Fields>, x: Fields)
    requires x in s
    ensures x in Reverse(s)
  {
    if x != s[|s| - 1] {
      ReverseHas(s[..|s| - 1], x);
    }
  }

  /** A pass visits every request on the list, and settles it as its visit says. */
  lemma EachVisited(cfg: Config, s: State, first: Accept, now: int, turns: nat -> Turn, k: nat)
    requires Counted(cfg, s) && k < |Arrive(cfg, s, first, now).ready|
    ensures var todo := Arrive(cfg, s, first, now).ready;
            SettledAs(Pass(cfg, s, first, now, turns), Visit(todo[k], turns(|todo| - k).answers))
  {
    hide Visit, Arrive, Visited, Counted, SettledAs, Scan;
    var met := Arrive(cfg, s, first, now);
    ArriveKeeps(cfg, s, first, now);
    assert [] + met.ready == met.ready;
    var arrived, lefts := ScanLaw(cfg, met, [], met.ready, turns);
    VisitedSettles(cfg, met, met.ready, turns, arrived, lefts, Pass(cfg, s, first, now, turns), k);
  }

  lemma VisitedSettles(cfg: Config, s: State, todo: seq<Fields>, turns: nat -> Turn, arrived: seq<Fields>, lefts: seq<nat>,
                       r: State, k: nat)
    requires Visited(cfg, s, [], todo, turns, arrived, lefts, r) && k < |todo|
    ensures SettledAs(r, Visit(todo[k], turns(|todo| - k).answers))
  {
    hide Visit, Reverse, Stayers, Waiters, Interests, ArrivedWith, SettledAs;
    StayersHave(todo, turns, k);
    var id := WaitersHave(todo, turns, |s.pfds|, k);
    SettledIn(r, Visit(todo[k], turns(|todo| - k).answers), arrived, Stayers(todo, turns), Waiters(todo, turns, |s.pfds|),
              s.block, id);
  }

  lemma SettledIn(r: State, f: Fate, arrived: seq<Fields>, stay: seq<Fields>, waiting: seq<Fields>, block: seq<Fields>, id: nat)
    requires r.ready == arrived + [] + stay && (f.Stays? ==> f.r in stay)
    requires r.block == Reverse(waiting) + block && (f.Waits? ==> f.r.(pollfdId := id) in waiting)
    ensures SettledAs(r, f)
  {
    hide Reverse;
    if f.Waits? {
      ReverseHas(waiting, f.r.(pollfdId := id));
    }
  }

  /** So it does with every request that is ready before the pass. */
  lemma ReadyVisited(cfg: Config, s: State, x: Fields, first: Accept, now: int, turns: nat -> Turn) returns (k: nat)
    requires Counted(cfg, s) && x in s.ready
    ensures var todo := Arrive(cfg, s, first, now).ready;
            && k < |todo| && todo[k] == x
            && SettledAs(Pass(cfg, s, first, now, turns), Visit(todo[k], turns(|todo| - k).answers))
  {
    hide Visit, Arrive, Pass, SettledAs;
    ArriveKeeps(cfg, s, first, now);
    var todo := Arrive(cfg, s, first, now).ready;
    var i :| 0 <= i < |s.ready| && s.ready[i] == x;
    k := |todo| - |s.ready| + i;
    assert todo[|todo| - |s.ready|..][i] == todo[k];
    EachVisited(cfg, s, first, now, turns, k);
  }

  // ----- A whole pass over the blocked list ---------------------------------------------

  /** The requests of a list that sleep on, in order, renumbered from `id` on. */
  function Sleepers(todo: seq<Fields>, wake: Fields -> Option<Fields>, id: nat): seq<Fields> {
    if todo == [] then []
    else if wake(todo[0]).Some? then Sleepers(todo[1..], wake, id)
    else [todo[0].(pollfdId := id)] + Sleepers(todo[1..], wake, id + 1)
  }

  /** Those that are woken, in order, as they are woken. */
  function Woken(todo: seq<Fields>, wake: Fields -> Option<Fields>): seq<Fields> {
    if todo == [] then []
    else if wake(todo[0]).Some? then [wake(todo[0]).value] + Woken(todo[1..], wake)
    else Woken(todo[1..], wake)
  }

  /** `r` follows from `s` by deciding once about each request of `todo`, the end of the blocked list
      behind `slept`. */
  predicate Decided(s: State, slept: seq<Fields>, todo: seq<Fields>, wake: Fields -> Option<Fields>, r: State) {
    && r.block == slept + Sleepers(todo, wake, |s.pfds|)
    && r.ready == Reverse(Woken(todo, wake)) + s.ready
    && r.pfds == s.pfds + Interests(Sleepers(todo, wake, |s.pfds|))
    && r.total == s.total && r.pending == s.pending && r.free == s.free
  }

  predicate Owning(todo: seq<Fields>, polled: seq<Pollfd>) { forall r <- todo :: Owns(r, polled) }

  lemma NothingDecided()
    ensures Reverse<Fields>([]) == [] && Interests([]) == []
  {
  }

  lemma SameInterest(r: Fields, id: nat)
    ensures Interest(r.(pollfdId := id)) == Interest(r)
  {
  }

  lemma UpdateStepShape(s: State, slept: seq<Fields>, todo: seq<Fields>, polled: seq<Pollfd>, wake: Fields -> Option<Fields>)
    requires s.block == slept + todo && todo != [] && Owning(todo, polled)
    ensures UpdateStep(s, |todo|, polled, wake) ==
            if wake(todo[0]).Some? then s.(block := slept + todo[1..], ready := [wake(todo[0]).value] + s.ready)
            else s.(block := (slept + [todo[0].(pollfdId := |s.pfds|)]) + todo[1..], pfds := s.pfds + [Interest(todo[0])])
  {
    var x := todo[0].(pollfdId := |s.pfds|);
    assert Owns(todo[0], polled);
    assert Without(s.block, |slept|) == slept + todo[1..];
    assert s.block[|slept| := x] == (slept + [x]) + todo[1..];
  }

  lemma {:induction false} UpdateLaw(s: State, slept: seq<Fields>, todo: seq<Fields>, polled: seq<Pollfd>,
                                     wake: Fields -> Option<Fields>)
    requires s.block == slept + todo && Owning(todo, polled)
    ensures Decided(s, slept, todo, wake, Update(s, |todo|, polled, wake))
    decreases |todo|
  {
    hide UpdateStep, Reverse, Interests, Interest;
    if todo == [] {
      NothingDecided();
      assert slept + [] == slept && [] + s.ready == s.ready && s.pfds + [] == s.pfds;
    } else {
      UpdateStepShape(s, slept, todo, polled, wake);
      var next, rest := UpdateStep(s, |todo|, polled, wake), todo[1..];
      if wake(todo[0]).Some? {
        UpdateLaw(next, slept, rest, polled, wake);
        ReverseCons(wake(todo[0]).value, Woken(rest, wake), s.ready);
      } else {
        var x := todo[0].(pollfdId := |s.pfds|);
        UpdateLaw(next, slept + [x], rest, polled, wake);
        var w := Sleepers(rest, wake, |s.pfds| + 1);
        SameInterest(todo[0], |s.pfds|);
        InterestsCons(x, w);
        Regroup(slept, [x], w);
        Regroup(s.pfds, [Interest(x)], Interests(w));
      }
    }
  }

  lemma {:induction false} SleepersNumbered(todo: seq<Fields>, wake: Fields -> Option<Fields>, id: nat, i: nat)
    requires i < |Sleepers(todo, wake, id)|
    ensures Sleepers(todo, wake, id)[i].pollfdId == id + i
  {
    if wake(todo[0]).Some? {
      SleepersNumbered(todo[1..], wake, id, i);
    } else if i > 0 {
      SleepersNumbered(todo[1..], wake, id + 1, i - 1);
    }
  }

  lemma {:induction false} InterestsAt(s: seq<Fields>, i: nat)
    requires i < |s|
    ensures |Interests(s)| == |s| && Interests(s)[i] == Interest(s[i])
  {
    if i > 0 {
      InterestsAt(s[1..], i - 1);
    } else if |s| > 1 {
      InterestsAt(s[1..], 0);
    }
  }

  lemma {:induction false} SleepersAndWoken(todo: seq<Fields>, wake: Fields -> Option<Fields>, id: nat)
    ensures |Sleepers(todo, wake, id)| + |Woken(todo, wake)| == |todo|
  {
    if todo != [] {
      SleepersAndWoken(todo[1..], wake, if wake(todo[0]).Some? then id else id + 1);
    }
  }

  lemma SleepersPolled(todo: seq<Fields>, wake: Fields -> Option<Fields>)
    ensures var w := Sleepers(todo, wake, 0); Polled(w, Interests(w)) && |Interests(w)| == |w|
  {
    hide Sleepers, Interests;
    var w := Sleepers(todo, wake, 0);
    if |w| == 0 {
      assert w == [];
      InterestsNone();
    } else {
      InterestsAt(w, 0);
    }
    forall i | 0 <= i < |w|
      ensures w[i].pollfdId == i && Owns(w[i], Interests(w))
    {
      SleepersNumbered(todo, wake, 0, i);
      InterestsAt(w, i);
    }
  }

  lemma PolledOwning(block: seq<Fields>, pfds: seq<Pollfd>)
    requires Polled(block, pfds)
    ensures Owning(block, pfds)
  {
  }

  lemma InterestsNone()
    ensures Interests([]) == []
  {
  }

  /** The pass over the blocked list empties one array into the other: afterwards the entries are
      those of the sleepers, in list order and nothing else. */
  lemma UpdateKeeps(cfg: Config, s: State, polled: seq<Pollfd>, wake: Fields -> Option<Fields>)
    requires Counted(cfg, s) && Polled(s.block, polled) && s.pfds == []
    ensures var r := Update(s, |s.block|, polled, wake);
            && Decided(s, [], s.block, wake, r)
            && Counted(cfg, r) && Polled(r.block, r.pfds) && |r.pfds| == |r.block|
  {
    hide Sleepers, Woken, Interests, Update, Reverse, Polled, Owning;
    assert [] + s.block == s.block;
    PolledOwning(s.block, polled);
    UpdateLaw(s, [], s.block, polled, wake);
    SleepersPolled(s.block, wake);
    SleepersAndWoken(s.block, wake, 0);
    var w := Sleepers(s.block, wake, 0);
    assert [] + w == w && [] + Interests(w) == Interests(w);
  }

  lemma {:induction false} UpdateCounted(cfg: Config, s: State, n: nat, polled: seq<Pollfd>, wake: Fields -> Option<Fields>)
    requires Counted(cfg, s) && n <= |s.block|
    ensures Counted(cfg, Update(s, n, polled, wake))
    decreases n
  {
    if n > 0 {
      UpdateCounted(cfg, UpdateStep(s, n, polled, wake), n - 1, polled, wake);
    }
  }

  /** It is at most 60 seconds since the request was last served, and less than the keep-alive timeout
      if it has been cleared for another request of which nothing has been read. */
  predicate InTime(cfg: Config, r: Fields, now: int) {
    now - r.timeLast <= 60 && (r.kacount < cfg.kaMax && !r.work.logline ==> now - r.timeLast < cfg.kaTimeout)
  }

  /** The requests of a list for which `p` holds, in order. */
  function Those(todo: seq<Fields>, p: Fields -> bool): seq<Fields> {
    if todo == [] then [] else (if p(todo[0]) then [todo[0]] else []) + Those(todo[1..], p)
  }

  function Each(todo: seq<Fields>, f: Fields -> Fields): seq<Fields> {
    if todo == [] then [] else [f(todo[0])] + Each(todo[1..], f)
  }

  function Numbered(todo: seq<Fields>, id: nat): seq<Fields> {
    if todo == [] then [] else [todo[0].(pollfdId := id)] + Numbered(todo[1..], id + 1)
  }

  /** When `sleeps` says who sleeps on and `mark` how the others are woken. */
  lemma {:induction false} Sorted(todo: seq<Fields>, wake: Fields -> Option<Fields>, sleeps: Fields -> bool,
                                  wakes: Fields -> bool, mark: Fields -> Fields, id: nat)
    requires forall x :: sleeps(x) == !wakes(x) && wake(x) == if sleeps(x) then None else Some(mark(x))
    ensures Sleepers(todo, wake, id) == Numbered(Those(todo, sleeps), id)
    ensures Woken(todo, wake) == Each(Those(todo, wakes), mark)
  {
    if todo != [] {
      var x, asleep, awake := todo[0], Those(todo[1..], sleeps), Those(todo[1..], wakes);
      Sorted(todo[1..], wake, sleeps, wakes, mark, if sleeps(x) then id + 1 else id);
      assert sleeps(x) == !wakes(x) && wake(x) == if sleeps(x) then None else Some(mark(x));
      assert [] + asleep == asleep && [] + awake == awake;
      assert ([x] + asleep)[1..] == asleep && ([x] + awake)[1..] == awake;
    }
  }

  // ----- The loop over poll -------------------------------------------------------------

  /** The world in one iteration: `poll` is interrupted or answers for every entry and the server
      socket; then the clock, and the answers of the pass. */
  datatype Round = Round(interrupted: bool, serverReady: bool, revents: nat -> Revents, now: int, first: Accept,
                         turns: nat -> Turn)

  predicate Open(cfg: Config, s: State) { s.total < cfg.maxConnections }

  /** The server socket is polled as long as there is room for connections. */
  function Watch(cfg: Config, s: State, server: int): State {
    if Open(cfg, s) then s.(pfds := s.pfds + [Pollfd(server, Readable)], pending := false) else s.(pending := false)
  }

  function Waker(cfg: Config, revents: nat -> Revents, now: int): Fields -> Option<Fields> {
    (r: Fields) => Wake(cfg, r, revents(r.pollfdId), now)
  }

  /** Waking the blocked requests and swapping the arrays. */
  function Rouse(cfg: Config, w: State, round: Round): State {
    Update(w.(pfds := [], pending := Open(cfg, w) && round.serverReady), |w.block|, w.pfds, Waker(cfg, round.revents, round.now))
  }

  /** One iteration of `loop` in src/poll.c. */
  function Iterate(cfg: Config, server: int, s: State, round: Round): State {
    var w := Watch(cfg, s, server);
    if w.pfds != [] && round.interrupted then w
    else Pass(cfg, Rouse(cfg, w, round), round.first, round.now, round.turns)
  }

  predicate Inv(cfg: Config, s: State) { Counted(cfg, s) && Polled(s.block, s.pfds) && |s.block| <= |s.pfds| }

  lemma PolledMore(block: seq<Fields>, pfds: seq<Pollfd>, p: Pollfd)
    requires Polled(block, pfds)
    ensures Polled(block, pfds + [p])
  {
    forall r | r in block
      ensures Owns(r, pfds + [p])
    {
      assert Owns(r, pfds);
    }
  }

  lemma WatchKeeps(cfg: Config, s: State, server: int)
    requires Inv(cfg, s)
    ensures var w := Watch(cfg, s, server);
            Inv(cfg, w) && w.block == s.block && w.total == s.total && |w.pfds| == |s.pfds| + if Open(cfg, s) then 1 else 0
  {
    hide Polled;
    PolledMore(s.block, s.pfds, Pollfd(server, Readable));
  }

  lemma RouseKeeps(cfg: Config, w: State, round: Round)
    requires Inv(cfg, w)
    ensures var r := Rouse(cfg, w, round); Counted(cfg, r) && Polled(r.block, r.pfds) && |r.pfds| == |r.block|
  {
    hide Polled, Update, Decided;
    UpdateKeeps(cfg, w.(pfds := [], pending := Open(cfg, w) && round.serverReady), w.pfds,
                Waker(cfg, round.revents, round.now));
  }

  /** A request as it is woken. */
  function Marked(cfg: Config, r: Fields, round: Round): Fields {
    var s := if round.revents(r.pollfdId) == Trouble then Dead else if InTime(cfg, r, round.now) then r.work.status else TimedOut;
    r.(work := r.work.(status := s))
  }

  lemma WakeExactly(cfg: Config, x: Fields, round: Round)
    ensures Wake(cfg, x, round.revents(x.pollfdId), round.now)
         == if round.revents(x.pollfdId) == Quiet && InTime(cfg, x, round.now) then None else Some(Marked(cfg, x, round))
  {
  }

  /** Which blocked requests `update_blocked` wakes, and how: the others are those without an event that
      are in time, and nothing but their number changes. A woken one is dead exactly if there is trouble,
      else timed out exactly if it is not in time, and otherwise as it was. */
  lemma RouseExactly(cfg: Config, w: State, round: Round)
    requires Inv(cfg, w)
    ensures var r := Rouse(cfg, w, round);
            var sleeps := (x: Fields) => round.revents(x.pollfdId) == Quiet && InTime(cfg, x, round.now);
            var wakes := (x: Fields) => round.revents(x.pollfdId) != Quiet || !InTime(cfg, x, round.now);
            && r.block == Numbered(Those(w.block, sleeps), 0)
            && r.ready == Reverse(Each(Those(w.block, wakes), (x: Fields) => Marked(cfg, x, round))) + w.ready
            && r.pfds == Interests(r.block) && r.total == w.total
  {
    hide Polled, Update, Interests, Reverse, Marked, InTime, Wake, Sleepers, Woken, Those, Each, Numbered;
    var from, wake := w.(pfds := [], pending := Open(cfg, w) && round.serverReady), Waker(cfg, round.revents, round.now);
    var sleeps := (x: Fields) => round.revents(x.pollfdId) == Quiet && InTime(cfg, x, round.now);
    var wakes := (x: Fields) => round.revents(x.pollfdId) != Quiet || !InTime(cfg, x, round.now);
    UpdateKeeps(cfg, from, w.pfds, wake);
    forall x: Fields
      ensures sleeps(x) == !wakes(x) && wake(x) == if sleeps(x) then None else Some(Marked(cfg, x, round))
    {
      WakeExactly(cfg, x, round);
    }
    Sorted(w.block, wake, sleeps, wakes, (x: Fields) => Marked(cfg, x, round), 0);
    var b := Sleepers(w.block, wake, 0);
    assert [] + b == b && [] + Interests(b) == Interests(b);
  }

  /** Every blocked request that has an event, or is not in time, is visited in the same iteration,
      as it was woken, and settled as that visit says. */
  lemma EventsVisited(cfg: Config, server: int, s: State, round: Round, x: Fields) returns (k: nat)
    requires Inv(cfg, s) && x in s.block && !round.interrupted
    requires round.revents(x.pollfdId) != Quiet || !InTime(cfg, x, round.now)
    ensures var todo := Arrive(cfg, Rouse(cfg, Watch(cfg, s, server), round), round.first, round.now).ready;
            && k < |todo| && todo[k] == Marked(cfg, x, round)
            && SettledAs(Iterate(cfg, server, s, round), Visit(todo[k], round.turns(|todo| - k).answers))
  {
    hide Polled, Update, Pass, Visit, Marked, InTime, Counted, Arrive, Rouse, Reverse, Interests, Numbered, Those, Each,
      SettledAs;
    WatchKeeps(cfg, s, server);
    var w := Watch(cfg, s, server);
    RouseKeeps(cfg, w, round);
    RouseExactly(cfg, w, round);
    var wakes := (x: Fields) => round.revents(x.pollfdId) != Quiet || !InTime(cfg, x, round.now);
    var mark := (x: Fields) => Marked(cfg, x, round);
    ThoseHave(w.block, wakes, mark, x);
    ReverseHas(Each(Those(w.block, wakes), mark), Marked(cfg, x, round));
    var r := Rouse(cfg, w, round);
    k := ReadyVisited(cfg, r, Marked(cfg, x, round), round.first, round.now, round.turns);
  }

  lemma {:induction false} ThoseHave(todo: seq<Fields>, p: Fields -> bool, f: Fields -> Fields, x: Fields)
    requires x in todo && p(x)
    ensures f(x) in Each(Those(todo, p), f)
  {
    if x != todo[0] {
      ThoseHave(todo[1..], p, f, x);
    }
    var rest := Those(todo[1..], p);
    assert p(todo[0]) ==> ([todo[0]] + rest)[1..] == rest;
    assert [] + rest == rest;
  }

  lemma PassKeeps(cfg: Config, s: State, first: Accept, now: int, turns: nat -> Turn)
    requires Counted(cfg, s)
    ensures var r := Pass(cfg, s, first, now, turns);
            && Counted(cfg, r) && |r.pfds| - |r.block| == |s.pfds| - |s.block|
            && (Polled(s.block, s.pfds) ==> Polled(r.block, r.pfds))
  {
    hide Polled, Counted, Arrive;
    ArriveKeeps(cfg, s, first, now);
    var met := Arrive(cfg, s, first, now);
    ScanKeeps(cfg, met, |met.ready|, turns);
  }

  /** Between iterations there is one poll entry for each blocked request and none besides, unless
      the last `poll` was interrupted: then the entry of the server socket is still there. */
  lemma IterateKeeps(cfg: Config, server: int, s: State, round: Round)
    requires Inv(cfg, s)
    ensures var r := Iterate(cfg, server, s, round);
            && Inv(cfg, r)
            && ((r == Watch(cfg, s, server) && round.interrupted) || |r.pfds| == |r.block|)
  {
    hide Polled, Update, Pass, Waker, Decided;
    WatchKeeps(cfg, s, server);
    var w := Watch(cfg, s, server);
    if w.pfds == [] || !round.interrupted {
      RouseKeeps(cfg, w, round);
      PassKeeps(cfg, Rouse(cfg, w, round), round.first, round.now, round.turns);
    }
  }

  function From(cfg: Config, server: int, s: State, rounds: seq<Round>): State {
    if rounds == [] then s
    else Iterate(cfg, server, From(cfg, server, s, rounds[..|rounds| - 1]), rounds[|rounds| - 1])
  }

  /** A run of the server. */
  function Run(cfg: Config, server: int, rounds: seq<Round>): State { From(cfg, server, INITIAL, rounds) }

  /** How many iterations at the end of a run may have been interrupted in `poll`. */
  function Trailing(rounds: seq<Round>): nat {
    if rounds == [] || !rounds[|rounds| - 1].interrupted then 0 else Trailing(rounds[..|rounds| - 1]) + 1
  }

  /** After every run: the connection count is that of the live requests and at most one over the
      limit; every blocked request owns another poll entry, naming its own descriptor and interest;
      and other entries are left over only by interruptions, one by each. */
  lemma {:induction false} EveryRun(cfg: Config, server: int, rounds: seq<Round>)
    ensures var s := Run(cfg, server, rounds);
            && Counted(cfg, s) && Polled(s.block, s.pfds)
            && |s.block| <= |s.pfds| <= |s.block| + Trailing(rounds)
  {
    hide Polled, Iterate;
    if rounds == [] {
      PolledNone();
    } else {
      var before := Run(cfg, server, rounds[..|rounds| - 1]);
      EveryRun(cfg, server, rounds[..|rounds| - 1]);
      IterateKeeps(cfg, server, before, rounds[|rounds| - 1]);
      WatchKeeps(cfg, before, server);
    }
  }

  /** What every blocked request waits for, in every reachable state: to write what is buffered; else to
      write or read the descriptor that its status calls for. */
  lemma BlockedEntry(cfg: Config, server: int, rounds: seq<Round>, r: Fields)
    requires r in Run(cfg, server, rounds).block
    ensures var s := Run(cfg, server, rounds);
            && r.pollfdId < |s.pfds|
            && var p := s.pfds[r.pollfdId];
               if r.work.bufferEnd > 0 then p == Pollfd(r.fd, Writable)
               else match r.work.status
                 case BodyWrite => p == Pollfd(r.work.postDataFd, Writable)
                 case PipeRead => p == Pollfd(r.work.dataFd, Readable)
                 case IoShuffle => p == if r.work.bufferStart == 0 then Pollfd(r.work.dataFd, Readable) else Pollfd(r.fd, Writable)
                 case _ => p == Pollfd(r.fd, if r.work.status in {Write, PipeWrite, Done} then Writable else Readable)
  {
    hide Run;
    EveryRun(cfg, server, rounds);
    assert Owns(r, Run(cfg, server, rounds).pfds);
  }

  /** An iteration accepts a connection before it visits anyone exactly when there is room for one
      and the server socket is ready. */
  lemma FirstAcceptedExactly(cfg: Config, server: int, s: State, round: Round)
    requires Inv(cfg, s) && round.first.Connection? && round.first.usable && round.first.memory
    ensures var r := Rouse(cfg, Watch(cfg, s, server), round);
            var met := Arrive(cfg, r, round.first, round.now);
            if s.total < cfg.maxConnections && round.serverReady then
              |met.ready| == |r.ready| + 1 && met.ready[1..] == r.ready && Greeted(cfg, met.ready[0], round.first, round.now, s.total)
            else met == r
  {
    hide Polled, Rouse, Greeted, GetRequest;
    WatchKeeps(cfg, s, server);
    var w := Watch(cfg, s, server);
    RousePending(cfg, w, round);
    if Rouse(cfg, w, round).pending {
      ArrivalExactly(cfg, Rouse(cfg, w, round), round.first, round.now);
    }
  }

  lemma RousePending(cfg: Config, w: State, round: Round)
    requires Inv(cfg, w)
    ensures var r := Rouse(cfg, w, round);
            r.total == w.total && (r.pending <==> w.total < cfg.maxConnections && round.serverReady)
  {
    hide Polled, Update;
    UpdateKeeps(cfg, w.(pfds := [], pending := Open(cfg, w) && round.serverReady), w.pfds,
                Waker(cfg, round.revents, round.now));
  }

  lemma PolledNone()
    ensures Polled([], [])
  {
  }

  /** Without interruptions the entries handed to `poll`, with that of the server, are at most one
      more than the blocked requests, and both arrays have room for them and for every request that
      may block later in the iteration. */
  lemma RoomWithoutInterrupts(cfg: Config, server: int, rounds: seq<Round>)
    requires cfg.maxConnections <= MAX_FD - 20 && Trailing(rounds) == 0
    ensures var s := Run(cfg, server, rounds);
            && |Watch(cfg, s, server).pfds| <= |s.block| + 1
            && |s.block| + |s.ready| + 1 <= cfg.maxConnections + 2 < MAX_FD
  {
    EveryRun(cfg, server, rounds);
  }

  /** While the server is watched, `k` interruptions in a row do nothing but leave `k` entries for
      it behind, so that the array overflows exactly when they are more than the free entries. */
  lemma {:induction false} InterruptsPileUp(cfg: Config, server: int, s: State, rounds: seq<Round>)
    requires Open(cfg, s) && forall r <- rounds :: r.interrupted
    ensures From(cfg, server, s, rounds)
         == s.(pfds := s.pfds + seq(|rounds|, i => Pollfd(server, Readable)), pending := s.pending && rounds == [])
    ensures |From(cfg, server, s, rounds).pfds| > MAX_FD <==> |rounds| > MAX_FD - |s.pfds|
  {
    if rounds == [] {
      assert s.pfds + seq(0, i => Pollfd(server, Readable)) == s.pfds;
    } else {
      InterruptsPileUp(cfg, server, s, rounds[..|rounds| - 1]);
      assert s.pfds + seq(|rounds| - 1, i => Pollfd(server, Readable)) + [Pollfd(server, Readable)]
          == s.pfds + seq(|rounds|, i => Pollfd(server, Readable));
    }
  }

  /** An input on which it does: from the start of the server, one interruption more than the array has
      entries, whatever the limit of connections and whatever else the world answers. */
  lemma InterruptsOverflow(cfg: Config, server: int, rounds: seq<Round>)
    requires cfg.maxConnections > 0 && (forall r <- rounds :: r.interrupted)
    ensures |Run(cfg, server, rounds).pfds| > MAX_FD <==> |rounds| > MAX_FD
  {
    InterruptsPileUp(cfg, server, INITIAL, rounds);
  }

  // ----- The loop over select -----------------------------------------------------------

  /** `isSet` tells for the descriptor a request waits for whether `select` left it set. */
  datatype SelectRound = SelectRound(interrupted: bool, serverReady: bool, isSet: Fields -> bool, now: int, first: Accept,
                                     turns: nat -> Turn)

  /** `fdset_update` */
  function SelectRouse(cfg: Config, s: State, round: SelectRound): State {
    var from := s.(pfds := [], pending := s.total <= cfg.maxConnections && round.serverReady);
    Update(from, |s.block|, [], (r: Fields) => SelectWake(cfg, r, round.isSet(r), round.now))
  }

  /** One iteration of `loop` in src/select.c; there are no poll entries to keep. */
  function SelectIterate(cfg: Config, s: State, round: SelectRound): State {
    if round.interrupted then s.(pending := false)
    else
      var woken := SelectRouse(cfg, s, round);
      if woken.pending || woken.ready != [] then Pass(cfg, woken, round.first, round.now, round.turns) else woken
  }

  function SelectRun(cfg: Config, rounds: seq<SelectRound>): State {
    if rounds == [] then INITIAL else SelectIterate(cfg, SelectRun(cfg, rounds[..|rounds| - 1]), rounds[|rounds| - 1])
  }

  lemma {:induction false} UpdateUnpolled(s: State, slept: seq<Fields>, todo: seq<Fields>, wake: Fields -> Option<Fields>,
                                          sleeps: Fields -> bool, wakes: Fields -> bool, mark: Fields -> Fields)
    requires s.block == slept + todo
    requires forall x :: sleeps(x) == !wakes(x) && wake(x) == if sleeps(x) then None else Some(mark(x))
    ensures Update(s, |todo|, [], wake)
         == s.(block := slept + Those(todo, sleeps), ready := Reverse(Each(Those(todo, wakes), mark)) + s.ready)
    decreases |todo|
  {
    hide Reverse, UpdateStep;
    if todo == [] {
      NothingDecided();
      assert slept + [] == slept && [] + s.ready == s.ready;
    } else {
      var x, rest, asleep, awake := todo[0], todo[1..], Those(todo[1..], sleeps), Those(todo[1..], wakes);
      UnpolledStep(s, slept, todo, wake);
      UpdateUnfold(s, |todo|, [], wake);
      assert sleeps(x) == !wakes(x) && wake(x) == if sleeps(x) then None else Some(mark(x));
      if sleeps(x) {
        assert s.block == (slept + [x]) + rest && [] + awake == awake;
        UpdateUnpolled(s, slept + [x], rest, wake, sleeps, wakes, mark);
        Regroup(slept, [x], asleep);
      } else {
        assert ([x] + awake)[1..] == awake && [] + asleep == asleep;
        UpdateUnpolled(s.(block := slept + rest, ready := [mark(x)] + s.ready), slept, rest, wake, sleeps, wakes, mark);
        ReverseCons(mark(x), Each(awake, mark), s.ready);
      }
    }
  }

  lemma UnpolledStep(s: State, slept: seq<Fields>, todo: seq<Fields>, wake: Fields -> Option<Fields>)
    requires s.block == slept + todo && todo != []
    ensures UpdateStep(s, |todo|, [], wake) ==
            if wake(todo[0]).None? then s else s.(block := slept + todo[1..], ready := [wake(todo[0]).value] + s.ready)
  {
    assert Without(s.block, |slept|) == slept + todo[1..];
  }

  lemma SelectWakeExactly(cfg: Config, x: Fields, round: SelectRound)
    ensures SelectWake(cfg, x, round.isSet(x), round.now)
         == if !round.isSet(x) && x.work.status !in {TimedOut, Dead} && InTime(cfg, x, round.now) then None
            else Some(if InTime(cfg, x, round.now) then x else x.(work := x.work.(status := TimedOut)))
  {
  }

  /** Which requests `fdset_update` wakes: the others are those alive and in time whose descriptor is not
      set. A woken one is timed out exactly if it is not in time, and otherwise as it was. A connection
      is accepted next exactly when the server socket is ready and the limit is not exceeded. */
  lemma SelectRouseExactly(cfg: Config, s: State, round: SelectRound)
    ensures var r := SelectRouse(cfg, s, round);
            var sleeps := (x: Fields) => !round.isSet(x) && x.work.status !in {TimedOut, Dead} && InTime(cfg, x, round.now);
            var wakes := (x: Fields) => round.isSet(x) || x.work.status in {TimedOut, Dead} || !InTime(cfg, x, round.now);
            var mark := (x: Fields) => if InTime(cfg, x, round.now) then x else x.(work := x.work.(status := TimedOut));
            && r.block == Those(s.block, sleeps) && r.ready == Reverse(Each(Those(s.block, wakes), mark)) + s.ready
            && r.total == s.total && r.pfds == [] && (r.pending <==> s.total <= cfg.maxConnections && round.serverReady)
  {
    hide Update, Reverse;
    var sleeps := (x: Fields) => !round.isSet(x) && x.work.status !in {TimedOut, Dead} && InTime(cfg, x, round.now);
    var wakes := (x: Fields) => round.isSet(x) || x.work.status in {TimedOut, Dead} || !InTime(cfg, x, round.now);
    var mark := (x: Fields) => if InTime(cfg, x, round.now) then x else x.(work := x.work.(status := TimedOut));
    var wake := (r: Fields) => SelectWake(cfg, r, round.isSet(r), round.now);
    var from := s.(pfds := [], pending := s.total <= cfg.maxConnections && round.serverReady);
    assert [] + s.block == s.block && [] + Those(s.block, sleeps) == Those(s.block, sleeps);
    forall x: Fields
      ensures sleeps(x) == !wakes(x) && wake(x) == if sleeps(x) then None else Some(mark(x))
    {
      SelectWakeExactly(cfg, x, round);
    }
    UpdateUnpolled(from, [], s.block, wake, sleeps, wakes, mark);
  }

  /** Here too every woken request is visited in the same iteration, and settled as that visit says. */
  lemma SelectEventsVisited(cfg: Config, s: State, round: SelectRound, x: Fields) returns (k: nat)
    requires Counted(cfg, s) && x in s.block && !round.interrupted
    requires round.isSet(x) || x.work.status in {TimedOut, Dead} || !InTime(cfg, x, round.now)
    ensures var todo := Arrive(cfg, SelectRouse(cfg, s, round), round.first, round.now).ready;
            && k < |todo|
            && todo[k] == (if InTime(cfg, x, round.now) then x else x.(work := x.work.(status := TimedOut)))
            && SettledAs(SelectIterate(cfg, s, round), Visit(todo[k], round.turns(|todo| - k).answers))
  {
    hide Update, Pass, Visit, InTime, Arrive, Reverse, Those, Each, Counted, SelectRouse, SettledAs;
    SelectRouseExactly(cfg, s, round);
    var r := SelectRouse(cfg, s, round);
    var wakes := (x: Fields) => round.isSet(x) || x.work.status in {TimedOut, Dead} || !InTime(cfg, x, round.now);
    var mark := (x: Fields) => if InTime(cfg, x, round.now) then x else x.(work := x.work.(status := TimedOut));
    ThoseHave(s.block, wakes, mark, x);
    ReverseHas(Each(Those(s.block, wakes), mark), mark(x));
    SelectRouseCounted(cfg, s, round);
    k := ReadyVisited(cfg, r, mark(x), round.first, round.now, round.turns);
  }

  lemma SelectRouseCounted(cfg: Config, s: State, round: SelectRound)
    requires Counted(cfg, s)
    ensures Counted(cfg, SelectRouse(cfg, s, round))
  {
    UpdateCounted(cfg, s.(pfds := [], pending := s.total <= cfg.maxConnections && round.serverReady), |s.block|, [],
                  (r: Fields) => SelectWake(cfg, r, round.isSet(r), round.now));
  }

  /** The looser gate of this loop keeps the same bound. */
  lemma {:induction false} EverySelectRun(cfg: Config, rounds: seq<SelectRound>)
    ensures Counted(cfg, SelectRun(cfg, rounds))
  {
    if rounds != [] {
      EverySelectRun(cfg, rounds[..|rounds| - 1]);
      var s, round := SelectRun(cfg, rounds[..|rounds| - 1]), rounds[|rounds| - 1];
      if !round.interrupted {
        var from := s.(pfds := [], pending := s.total <= cfg.maxConnections && round.serverReady);
        var wake := (r: Fields) => SelectWake(cfg, r, round.isSet(r), round.now);
        UpdateCounted(cfg, from, |s.block|, [], wake);
        PassKeeps(cfg, SelectRouse(cfg, s, round), round.first, round.now, round.turns);
      }
    }
  }
}
