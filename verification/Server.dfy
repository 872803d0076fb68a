/** The scheduler on the heap: requests move between three doubly-linked lists while these are being
    scanned, and two poll arrays are swapped (src/queue.c:36-145, src/request.c:53-258, 302-588,
    src/poll.c:33-204). Each method is tied to its counterpart on values. */
module Server {
  import opened Commons
  import opened Requests
  import opened Queues
  import opened Scheduler

  ghost function FieldsOf(items: seq<Request>): (r: seq<Fields>)
    reads items`fields
    ensures |r| == |items| && forall i :: 0 <= i < |items| ==> r[i] == items[i].fields
  {
    if items == [] then [] else FieldsOf(items[..|items| - 1]) + [items[|items| - 1].fields]
  }

  ghost function Members(s: seq<Request>): set<Request> { set r | r in s }

  lemma MembersCons(r: Request, s: seq<Request>)
    ensures Members([r] + s) == {r} + Members(s)
  {
  }

  /** Three well-formed lists without a common request. */
  ghost predicate Separate(a: Queue, b: Queue, c: Queue)
    reads a, b, c, a.items`next, a.items`prev, b.items`next, b.items`prev, c.items`next, c.items`prev
  {
    && a != b && a != c && b != c
    && a.Valid() && b.Valid() && c.Valid()
    && Apart(a.items, b.items) && Apart(a.items, c.items) && Apart(b.items, c.items)
  }

  lemma SeparateOrder(a: Queue, b: Queue, c: Queue)
    requires Separate(a, b, c)
    ensures Separate(a, c, b) && Separate(b, a, c) && Separate(b, c, a) && Separate(c, a, b) && Separate(c, b, a)
  {
  }

  lemma SeparateDistinct(a: Queue, b: Queue, c: Queue)
    requires Separate(a, b, c)
    ensures Distinct(a.items) && Distinct(b.items)
  {
  }

  /** A list is as well-formed as before when its nodes are linked as before. */
  twostate lemma Untouched(q: Queue)
    requires old(q.Valid()) && unchanged(q) && forall r <- q.items :: old(allocated(r)) && r.next == old(r.next) && r.prev == old(r.prev)
    ensures q.Valid()
  {
    forall i | 0 <= i < |q.items|
      ensures q.items[i].next == old(q.items[i].next) && q.items[i].prev == old(q.items[i].prev)
    {
      assert q.items[i] in q.items;
    }
  }

  /** `dequeue` from one list and `enqueue` on another. */
  method Move(from: Queue, to: Queue, ghost third: Queue, req: Request, ghost p: nat)
    requires Separate(from, to, third) && p < |from.items| && from.items[p] == req
    modifies from, to, Members(from.items)`next, Members(from.items)`prev, Members(to.items)`next, Members(to.items)`prev
    ensures Separate(from, to, third) && third.items == old(third.items)
    ensures req !in from.items && req !in old(to.items)
    ensures from.items == Without(old(from.items), p) && to.items == [req] + old(to.items)
  {
    hide Queue.Valid, Without;
    SeparateDistinct(from, to, third);
    MoveApart(from.items, to.items, third.items, p);
    from.Dequeue(req, p);
    Untouched(to);
    label mid:
    to.Enqueue(req);
    Untouched(third);
    Untouched@mid(from);
  }

  lemma MoveApart(a: seq<Request>, b: seq<Request>, c: seq<Request>, p: nat)
    requires Apart(a, b) && Apart(a, c) && Apart(b, c) && Distinct(a) && p < |a|
    ensures a[p] !in b && a[p] !in Without(a, p)
    ensures Apart(Without(a, p), [a[p]] + b) && Apart(Without(a, p), c) && Apart([a[p]] + b, c)
    ensures Apart(Without(a, p), b)
  {
    WithoutDistinct(a, p);
  }

  lemma MembersMove(s: seq<Request>, p: nat, t: seq<Request>)
    requires p < |s|
    ensures Members(s) + Members(t) == Members(Without(s, p)) + Members([s[p]] + t) && s[p] in Members(s)
  {
    forall r | r in s
      ensures r in Without(s, p) || r == s[p]
    {
      var i :| 0 <= i < |s| && s[i] == r;
      assert i != p ==> r == Without(s, p)[if i < p then i else i - 1];
    }
  }

  lemma FieldsWithout(s: seq<Request>, p: nat)
    requires p < |s|
    ensures FieldsOf(Without(s, p)) == Without(FieldsOf(s), p)
  {
    hide Without;
    forall i | 0 <= i < |s| - 1
      ensures FieldsOf(Without(s, p))[i] == Without(FieldsOf(s), p)[i]
    {
      WithoutIndex(s, p, i);
      WithoutIndex(FieldsOf(s), p, i);
    }
  }

  lemma WithoutIndex<T>(s: seq<T>, p: nat, i: nat)
    requires p < |s| && i < |s| - 1
    ensures Without(s, p)[i] == s[if i < p then i else i + 1]
  {
  }

  lemma FieldsCons(r: Request, s: seq<Request>)
    ensures FieldsOf([r] + s) == [r.fields] + FieldsOf(s)
  {
  }

  lemma FieldsAt(items: seq<Request>, p: nat)
    requires p < |items|
    ensures FieldsOf(items)[p] == items[p].fields
  {
  }

  lemma SeparateMember(a: Queue, b: Queue, c: Queue, p: nat)
    requires Separate(a, b, c) && p < |a.items|
    ensures a.items[p] !in b.items && a.items[p] !in c.items && Distinct(a.items)
  {
    assert a.items[p] in a.items;
  }

  /** The fields of a request that is on neither of two lists. */
  method SetFields(ghost a: seq<Request>, ghost b: seq<Request>, req: Request, fields: Fields)
    requires req !in a && req !in b
    modifies req`fields
    ensures req.fields == fields
    ensures FieldsOf(a) == old(FieldsOf(a)) && FieldsOf(b) == old(FieldsOf(b))
  {
    req.fields := fields;
  }

  /** The fields of the request at position `p` of a list. */
  method ChangeFields(ghost q: seq<Request>, ghost o: seq<Request>, req: Request, ghost p: nat, fields: Fields)
    requires p < |q| && q[p] == req && Distinct(q) && req !in o
    modifies req`fields
    ensures req.fields == fields
    ensures FieldsOf(q) == old(FieldsOf(q))[p := fields] && FieldsOf(o) == old(FieldsOf(o))
  {
    req.fields := fields;
  }

  /** `dequeue` of the head of a list. */
  method TakeHead(q: Queue, ghost a: Queue, ghost b: Queue) returns (req: Request)
    requires Separate(a, b, q) && q.head != null
    modifies q, Members(q.items)`next, Members(q.items)`prev
    ensures Separate(a, b, q) && a.items == old(a.items) && b.items == old(b.items)
    ensures old(q.items) == [req] + q.items
    ensures req !in a.items && req !in b.items && req !in q.items
  {
    hide Queue.Valid, Without;
    req := q.head;
    HeadIsFirst(q);
    SeparateOrder(a, b, q);
    SeparateDistinct(q, a, b);
    WithoutFirst(q.items);
    MoveApart(q.items, a.items, b.items, 0);
    q.Dequeue(req, 0);
    Untouched(a);
    Untouched(b);
  }

  lemma FreeHead(a: Queue, b: Queue, q: Queue)
    requires Separate(a, b, q)
    ensures q.head != null <==> q.items != []
  {
  }

  lemma HeadIsFirst(q: Queue)
    requires q.Valid()
    ensures q.head == At(q.items, 0) && (q.head != null <==> q.items != [])
  {
  }

  lemma WithoutFirst(s: seq<Request>)
    requires s != []
    ensures s == [s[0]] + Without(s, 0)
  {
  }

  /** `enqueue` of a request that is on no list. */
  method Give(q: Queue, ghost a: Queue, ghost b: Queue, req: Request)
    requires Separate(a, b, q) && req !in a.items && req !in b.items && req !in q.items
    modifies q, Members(q.items)`next, Members(q.items)`prev, req`next, req`prev
    ensures Separate(a, b, q) && a.items == old(a.items) && b.items == old(b.items)
    ensures q.items == [req] + old(q.items)
  {
    hide Queue.Valid;
    q.Enqueue(req);
    Untouched(a);
    Untouched(b);
  }

  lemma NextAt(q: Queue, a: Queue, b: Queue, i: nat)
    requires Separate(q, a, b) && i < |q.items|
    ensures q.items[i].next == At(q.items, i + 1)
  {
  }

  lemma Rest(s: seq<Request>, q: nat, t: seq<Request>, p: nat)
    requires q < |s| && p < |t| && s[q..] == t[p..]
    ensures |s| - q == |t| - p && s[q + 1..] == t[p + 1..] && Without(s, q)[q..] == t[p + 1..]
    ensures At(Without(s, q), q) == At(s, q + 1)
  {
    assert s[q + 1..] == s[q..][1..] && t[p + 1..] == t[p..][1..];
    assert Without(s, q)[q..] == s[q + 1..];
  }

  /** The scan goes on at the same request, whether the one at `q` stays or goes. */
  lemma Continuation(s: seq<Request>, q: nat, t: seq<Request>, p: nat)
    requires q < |s| && p < |t| && s[q..] == t[p..]
    ensures var n := |t| - p;
            && 0 <= |s| - (n - 1) && s[|s| - (n - 1)..] == t[p + 1..] && At(s, |s| - (n - 1)) == At(s, q + 1)
            && var w := Without(s, q);
               0 <= |w| - (n - 1) && w[|w| - (n - 1)..] == t[p + 1..] && At(w, |w| - (n - 1)) == At(s, q + 1)
  {
    Rest(s, q, t, p);
  }

  lemma ShiftedBy(s: seq<Request>, t: seq<Request>, p: nat)
    requires p < |t| && (s == t || (s != [] && s[1..] == t))
    ensures var q := if s == t then p else p + 1; q < |s| && s[q] == t[p] && s[q..] == t[p..]
  {
    if s != t {
      assert s[1..][p..] == s[p + 1..];
    }
  }

  lemma HeadAt(q: Queue, a: Queue, b: Queue)
    requires Separate(q, a, b)
    ensures q.head == At(q.items, 0) && Distinct(q.items)
  {
  }

  /** The answers in order, indexed by how many are left of `total`. */
  ghost function FromEnd(turns: nat -> Turn, total: nat): nat -> Turn {
    (n: nat) => turns(if n <= total then total - n else 0)
  }

  lemma FromEndAt(turns: nat -> Turn, total: nat, k: nat)
    requires k < total
    ensures FromEnd(turns, total)(total - k) == turns(k)
  {
  }

  /** The first rounds as they were played, with the answers of as many visits as there were. */
  ghost function Played(rounds: seq<Round>, counts: seq<nat>): (r: seq<Round>)
    requires |counts| <= |rounds|
    ensures |r| == |counts|
  {
    if counts == [] then []
    else
      var i := |counts| - 1;
      Played(rounds, counts[..i]) + [rounds[i].(turns := FromEnd(rounds[i].turns, counts[i]))]
  }

  lemma PlayedSnoc(rounds: seq<Round>, counts: seq<nat>)
    requires |counts| < |rounds|
    ensures forall n: nat ::
              var round := rounds[|counts|];
              Played(rounds, counts + [n]) == Played(rounds, counts) + [round.(turns := FromEnd(round.turns, n))]
  {
    forall n: nat
      ensures var round := rounds[|counts|];
              Played(rounds, counts + [n]) == Played(rounds, counts) + [round.(turns := FromEnd(round.turns, n))]
    {
      assert (counts + [n])[..|counts|] == counts;
    }
  }

  lemma {:induction false} TrailingPlayed(rounds: seq<Round>, counts: seq<nat>)
    requires |counts| <= |rounds|
    ensures Trailing(Played(rounds, counts)) == Trailing(rounds[..|counts|])
  {
    if counts != [] {
      var i := |counts| - 1;
      TrailingPlayed(rounds, counts[..i]);
      var played := Played(rounds, counts);
      assert played[..i] == Played(rounds, counts[..i]);
      assert rounds[..i + 1][..i] == rounds[..i];
    }
  }

  /** `poll` is never interrupted so often in a row that the array overflows. */
  ghost predicate RoomFor(cfg: Config, rounds: seq<Round>) {
    forall k :: 0 <= k < |rounds| ==> Trailing(rounds[..k]) <= MAX_FD - cfg.maxConnections
  }

  lemma BlankInterest(r: Fields)
    requires r.work == BLANK
    ensures Interest(r) == Pollfd(r.fd, Readable)
  {
  }

  /** `current` is the request of `list` at `k`, and the rest of `list` ends the queue. */
  ghost predicate Aligned(q: Queue, list: seq<Request>, k: nat, current: Request?)
    reads q
  {
    && k <= |list| && |list| - k <= |q.items|
    && current == At(q.items, |q.items| - (|list| - k))
    && q.items[|q.items| - (|list| - k)..] == list[k..]
  }

  lemma AlignedStart(q: Queue, a: Queue, b: Queue)
    requires Separate(q, a, b)
    ensures Aligned(q, q.items, 0, q.head) && Distinct(q.items)
  {
    HeadAt(q, a, b);
  }

  lemma AlignedBounds(q: Queue, list: seq<Request>, k: nat, current: Request?)
    requires Aligned(q, list, k, current)
    ensures k <= |list| && |list| - k <= |q.items| && (current == null <==> k == |list|)
  {
  }

  /** The global variables of the scheduler; `revents` is an input. */
  class Daemon {
    const cfg: Config
    const socket: int
    const ready: Queue
    const block: Queue
    const free: Queue
    var totalConnections: nat
    var pendingRequests: bool
    var pfds: array<Pollfd>
    var other: array<Pollfd>
    var pfdLen: nat

    ghost predicate Lists()
      reads ready, block, free, ready.items`next, ready.items`prev, block.items`next, block.items`prev,
            free.items`next, free.items`prev
    {
      Separate(ready, block, free)
    }

    ghost predicate Arrays()
      reads this`pfds, this`other, this`pfdLen
    {
      pfds.Length == other.Length == MAX_FD && pfds != other && pfdLen <= MAX_FD
    }

    ghost function Value(): State
      requires Arrays()
      reads this, ready, block, free, ready.items`fields, block.items`fields, pfds
    {
      View(pfds)
    }

    /** The value when `a` is the array in use. */
    ghost function View(a: array<Pollfd>): State
      requires pfdLen <= a.Length
      reads this, ready, block, free, ready.items`fields, block.items`fields, a
    {
      State(FieldsOf(ready.items), FieldsOf(block.items), |free.items|, totalConnections, pendingRequests, a[..pfdLen])
    }

    /** All requests ever allocated. */
    ghost function Nodes(): set<Request>
      reads ready, block, free
    {
      Members(ready.items) + Members(block.items) + Members(free.items)
    }

    constructor (cfg: Config, socket: int)
      ensures this.cfg == cfg && this.socket == socket
      ensures Lists() && Arrays() && Value() == INITIAL && Nodes() == {}
      ensures fresh(ready) && fresh(block) && fresh(free) && fresh(pfds) && fresh(other)
    {
      this.cfg, this.socket := cfg, socket;
      ready := new Queue();
      block := new Queue();
      free := new Queue();
      totalConnections, pendingRequests, pfdLen := 0, false, 0;
      pfds := new Pollfd[MAX_FD](_ => Pollfd(0, Readable));
      other := new Pollfd[MAX_FD](_ => Pollfd(0, Readable));
    }

    /** `new_request`: a node from the free list, or a new one if there is memory. */
    method NewRequest(memory: bool, now: int) returns (req: Request?)
      requires Lists()
      modifies free, Nodes()
      ensures Lists() && ready.items == old(ready.items) && block.items == old(block.items)
      ensures req == null <==> old(free.items) == [] && !memory
      ensures req == null ==> free.items == []
      ensures Nodes() <= old(Nodes()) && old(Nodes()) <= Nodes() + if req == null then {} else {req}
      ensures FieldsOf(ready.items) == old(FieldsOf(ready.items)) && FieldsOf(block.items) == old(FieldsOf(block.items))
      ensures req != null ==>
                && (if old(free.items) == [] then fresh(req) && free.items == [] else old(free.items) == [req] + free.items)
                && (fresh(req) || req in old(Nodes())) && req !in ready.items && req !in block.items && req !in free.items
                && req.fields == Newcomer(cfg, req.fields.fd, now)
    {
      hide Separate;
      FreeHead(ready, block, free);
      if free.head != null {
        req := TakeHead(free, ready, block);
        MembersCons(req, free.items);
      } else if memory {
        req := new Request(Newcomer(cfg, 0, now));
      } else {
        return null;
      }
      req.fields := Fields(BLANK, 0, req.fields.fd, now, cfg.kaMax);
    }

    method PutReady(req: Request)
      requires Lists() && req !in ready.items && req !in block.items && req !in free.items
      modifies ready, req`next, req`prev, Nodes()`next, Nodes()`prev
      ensures Lists() && block.items == old(block.items) && free.items == old(free.items)
      ensures ready.items == [req] + old(ready.items) && Nodes() == old(Nodes()) + {req}
    {
      hide Separate, Members;
      MembersCons(req, ready.items);
      SeparateOrder(ready, block, free);
      Give(ready, block, free, req);
      SeparateOrder(block, free, ready);
    }

    /** A request that is on no list goes to the front of the ready list. */
    method EnlistReady(req: Request, fields: Fields)
      requires Lists() && req !in ready.items && req !in block.items && req !in free.items
      modifies ready, req, Nodes()`next, Nodes()`prev
      ensures Lists() && block.items == old(block.items) && FieldsOf(block.items) == old(FieldsOf(block.items))
      ensures ready.items == [req] + old(ready.items) && free.items == old(free.items)
      ensures Nodes() == old(Nodes()) + {req}
      ensures FieldsOf(ready.items) == [fields] + old(FieldsOf(ready.items))
    {
      hide Separate, Nodes, FieldsOf;
      PutReady(req);
      SetFields(old(ready.items), block.items, req, fields);
      FieldsCons(req, old(ready.items));
    }

    /** A request whose set-up failed goes to the free list. */
    method EnlistFree(req: Request)
      requires Lists() && req !in ready.items && req !in block.items && req !in free.items
      modifies free, req`next, req`prev, Nodes()`next, Nodes()`prev
      ensures Lists() && block.items == old(block.items) && ready.items == old(ready.items)
      ensures free.items == [req] + old(free.items)
      ensures Nodes() == old(Nodes()) + {req}
    {
      hide Separate, Members;
      MembersCons(req, free.items);
      Give(free, ready, block, req);
    }

    /** The part of `get_request` after `new_request`. */
    method Greet(conn: Request, fd: int, usable: bool, text: nat, sock: Sock, now: int)
      requires Lists() && Arrays() && conn !in ready.items && conn !in block.items && conn !in free.items
      requires conn.fields == Newcomer(cfg, conn.fields.fd, now)
      modifies this`totalConnections, this`pendingRequests, ready, free, conn, Nodes()`next, Nodes()`prev
      ensures Lists() && Arrays() && block.items == old(block.items)
      ensures Value() == Scheduler.GetRequest(cfg, old(Value()).(free := old(|free.items|) + 1),
                                              Connection(fd, true, usable, text, sock), now)
      ensures ready.items == if usable then [conn] + old(ready.items) else old(ready.items)
      ensures Nodes() == old(Nodes()) + {conn}
    {
      hide Separate, FieldsOf, Refused, Nodes;
      if !usable {
        EnlistFree(conn);
        return;
      }
      var fields := conn.fields.(fd := fd, timeLast := now, kacount := cfg.kaMax);
      totalConnections := totalConnections + 1;
      if totalConnections > cfg.maxConnections {
        pendingRequests := false;
        fields := Refused(cfg, fd, now, text, sock);
      }
      EnlistReady(conn, fields);
    }

    /** `get_request` */
    method GetRequest(a: Accept, now: int)
      requires Lists() && Arrays()
      modifies this`totalConnections, this`pendingRequests, ready, free, Nodes()
      ensures Lists() && Arrays() && Value() == Scheduler.GetRequest(cfg, old(Value()), a, now)
      ensures block.items == old(block.items)
      ensures ready.items == old(ready.items) || (ready.items != [] && ready.items[1..] == old(ready.items))
      ensures old(Nodes()) <= Nodes() && fresh(Nodes() - old(Nodes()))
    {
      hide Separate, FieldsOf, Refused, Newcomer, Nodes;
      match a {
        case NoConnection =>
          pendingRequests := false;
        case BadSocket =>
        case Connection(fd, memory, usable, text, sock) =>
          var conn := NewRequest(memory, now);
          if conn != null {
            Greet(conn, fd, usable, text, sock, now);
          }
      }
    }

    /** `dequeue` from the ready list and `enqueue` on the blocked one. */
    method ReadyToBlock(req: Request, ghost p: nat)
      requires Lists() && p < |ready.items| && ready.items[p] == req
      modifies ready, block, Nodes()`next, Nodes()`prev
      ensures Lists() && ready.items == Without(old(ready.items), p) && block.items == [req] + old(block.items)
      ensures free.items == old(free.items) && Nodes() == old(Nodes())
      ensures req !in ready.items && req !in old(block.items) && req in Nodes()
      ensures FieldsOf(ready.items) == Without(old(FieldsOf(ready.items)), p)
      ensures FieldsOf(old(block.items)) == old(FieldsOf(block.items))
    {
      hide Separate, Members, Without;
      MembersMove(ready.items, p, block.items);
      Move(ready, block, free, req, p);
      FieldsWithout(old(ready.items), p);
      assert FieldsOf(old(ready.items)) == old(FieldsOf(ready.items));
    }

    /** `dequeue` from the ready list and `enqueue` on the free one. */
    method ReadyToFree(req: Request, ghost p: nat)
      requires Lists() && p < |ready.items| && ready.items[p] == req
      modifies ready, free, Nodes()`next, Nodes()`prev
      ensures Lists() && ready.items == Without(old(ready.items), p) && free.items == [req] + old(free.items)
      ensures block.items == old(block.items) && Nodes() == old(Nodes())
      ensures FieldsOf(ready.items) == Without(old(FieldsOf(ready.items)), p)
      ensures FieldsOf(block.items) == old(FieldsOf(block.items))
    {
      hide Separate, Members, Without;
      MembersMove(ready.items, p, free.items);
      SeparateOrder(ready, block, free);
      Move(ready, free, block, req, p);
      SeparateOrder(ready, free, block);
      FieldsWithout(old(ready.items), p);
      assert FieldsOf(old(ready.items)) == old(FieldsOf(ready.items));
    }

    /** The request stays where it is on the ready list. */
    method Keep(req: Request, ghost p: nat, fields: Fields)
      requires Lists() && Arrays() && p < |ready.items| && ready.items[p] == req
      modifies req`fields
      ensures Lists() && req.fields == fields && Value() == Settle(old(Value()), p, Stays(fields))
    {
      hide Separate, FieldsOf;
      SeparateMember(ready, block, free, p);
      ChangeFields(ready.items, block.items, req, p, fields);
    }

    /** `BOA_FD_SET` for a request that moves to the blocked list. */
    method Park(req: Request, ghost p: nat, fields: Fields, want: Pollfd)
      requires Lists() && Arrays() && p < |ready.items| && ready.items[p] == req
      requires pfdLen < MAX_FD && want == Interest(fields)
      modifies this`pfdLen, ready, block, pfds, Nodes()
      ensures Lists() && Arrays() && Value() == Settle(old(Value()), p, Waits(fields))
      ensures ready.items == Without(old(ready.items), p) && Nodes() == old(Nodes())
    {
      hide Separate, FieldsOf, Without, Interest, Nodes;
      ReadyToBlock(req, p);
      pfds[pfdLen] := want;
      SetFields(ready.items, old(block.items), req, fields.(pollfdId := pfdLen));
      FieldsCons(req, old(block.items));
      pfdLen := pfdLen + 1;
      assert pfds[..pfdLen] == old(pfds[..pfdLen]) + [want];
    }

    /** The end of a connection. */
    method Close(req: Request, ghost p: nat)
      requires Lists() && Arrays() && p < |ready.items| && ready.items[p] == req && totalConnections > 0
      modifies this`totalConnections, ready, free, Nodes()`next, Nodes()`prev
      ensures Lists() && Arrays() && Value() == Settle(old(Value()), p, Closes)
      ensures ready.items == Without(old(ready.items), p) && Nodes() == old(Nodes())
    {
      hide Separate, FieldsOf, Without;
      ReadyToFree(req, p);
      totalConnections := totalConnections - 1;
    }

    /** `free_request`: flush, then keep the connection for another request or close it. */
    method FreeRequest(req: Request, ghost p: nat, sock: Sock)
      requires Lists() && Arrays() && p < |ready.items| && ready.items[p] == req
      requires pfdLen < MAX_FD && totalConnections > 0
      modifies this`totalConnections, this`pfdLen, ready, block, free, pfds, Nodes()
      ensures Lists() && Arrays() && Value() == Settle(old(Value()), p, Finish(old(req.fields), sock))
      ensures ready.items == (if Finish(old(req.fields), sock).Stays? then old(ready.items) else Without(old(ready.items), p))
      ensures Nodes() == old(Nodes())
    {
      hide Separate, FieldsOf, Without, Interest, Nodes, Settle;
      var fields := req.fields;
      if fields.work.bufferEnd != 0 && Alive(fields.work) {
        var (work, result) := Flush(fields.work.(status := Done), sock);
        fields := fields.(work := work);
        if result == -2 {
          fields := fields.(work := work.(status := Dead));
        } else if result > 0 {
          InNodes(req, p);
          Keep(req, p, fields);
          return;
        }
      }
      if fields.work.status == TimedOut && fields.work.responseStatus == 0 {
        fields := fields.(work := fields.work.(responseStatus := 408));
      }
      if Reusable(fields) {
        fields := fields.(work := BLANK, kacount := fields.kacount - 1);
        BlankInterest(fields);
        Park(req, p, fields, Pollfd(fields.fd, Readable));
      } else {
        Close(req, p);
      }
    }

    lemma InNodes(req: Request, p: nat)
      requires p < |ready.items| && ready.items[p] == req
      ensures req in Nodes()
    {
      assert req in ready.items;
    }

    lemma BlockedInNodes(req: Request, p: nat)
      requires p < |block.items| && block.items[p] == req
      ensures req in Nodes()
    {
      assert req in block.items;
    }

    /** `block_request` */
    method BlockRequest(req: Request, ghost p: nat)
      requires Lists() && Arrays() && p < |ready.items| && ready.items[p] == req && pfdLen < MAX_FD
      modifies this`pfdLen, ready, block, pfds, Nodes()
      ensures Lists() && Arrays() && Value() == Settle(old(Value()), p, Waits(old(req.fields)))
      ensures ready.items == Without(old(ready.items), p) && Nodes() == old(Nodes())
    {
      Park(req, p, req.fields, Interest(req.fields));
    }

    /** What holds while the ready list is scanned. */
    ghost predicate Scanning()
      reads this, ready, block, free, ready.items, block.items, free.items, pfds
    {
      && Lists() && Arrays() && Counted(cfg, Value()) && cfg.maxConnections <= MAX_FD - 20
      && pfdLen == |block.items|
    }

    /** The first part of a visit: the flush and the handler, then a pending connection. */
    method Attend(current: Request, ghost p: nat, turn: Turn) returns (retval: int, next: Request?, ghost q: nat)
      requires Lists() && Arrays() && p < |ready.items| && ready.items[p] == current
      modifies this`totalConnections, this`pendingRequests, ready, free, Nodes()
      ensures Lists() && Arrays()
      ensures q < |ready.items| && ready.items[q] == current && next == At(ready.items, q + 1)
      ensures ready.items[q..] == old(ready.items[p..]) && block.items == old(block.items)
      ensures old(current.fields) == old(Value()).ready[p]
      ensures current.fields == Serve(old(current.fields), turn.answers).0 && retval == Serve(old(current.fields), turn.answers).1
      ensures Value() == Attended(cfg, old(Value()), p, turn)
      ensures old(Nodes()) <= Nodes() && fresh(Nodes() - old(Nodes()))
    {
      hide Separate, FieldsOf, Members, Queue.Valid, Scheduler.GetRequest, Serve;
      InNodes(current, p);
      FieldsAt(ready.items, p);
      var (served, result) := Serve(current.fields, turn.answers);
      Keep(current, p, served);
      assert Nodes() == old(Nodes());
      label before:
      q := AcceptDuring(current, p, turn.accept, turn.answers.now);
      forall r | r in Nodes() && r !in old(Nodes())
        ensures fresh(r)
      {
        assert fresh@before(r);
      }
      NextAt(ready, block, free, q);
      retval, next := result, current.next;
    }

    /** A pending connection is accepted while the request at `p` is being visited; that one moves to `q`. */
    method AcceptDuring(ghost current: Request, ghost p: nat, a: Accept, now: int) returns (ghost q: nat)
      requires Lists() && Arrays() && p < |ready.items| && ready.items[p] == current
      modifies this`totalConnections, this`pendingRequests, ready, free, Nodes()
      ensures Lists() && Arrays() && block.items == old(block.items)
      ensures q < |ready.items| && ready.items[q] == current && ready.items[q..] == old(ready.items[p..])
      ensures current.fields == old(current.fields) && Value() == Arrive(cfg, old(Value()), a, now)
      ensures old(Nodes()) <= Nodes() && fresh(Nodes() - old(Nodes()))
    {
      hide Separate, FieldsOf, Members, Queue.Valid, Scheduler.GetRequest;
      FieldsAt(ready.items, p);
      if pendingRequests {
        GetRequest(a, now);
        q := if ready.items == old(ready.items) then p else p + 1;
        ShiftedBy(ready.items, old(ready.items), p);
        ArriveShape(cfg, old(Value()), a, now);
        FieldsAt(ready.items, q);
      } else {
        q := p;
      }
    }

    /** The second part: `retval` tells where the request goes. */
    method Dispatch(current: Request, ghost p: nat, retval: int, answers: Answers)
      requires Lists() && Arrays() && p < |ready.items| && ready.items[p] == current
      requires pfdLen < MAX_FD && totalConnections > 0
      modifies this`totalConnections, this`pfdLen, ready, block, free, pfds, Nodes()
      ensures Lists() && Arrays() && Nodes() == old(Nodes())
      ensures var fate := Dispatched(old(current.fields), retval, answers);
              && Value() == Settle(old(Value()), p, fate)
              && ready.items == if fate.Stays? then old(ready.items) else Without(old(ready.items), p)
    {
      hide Separate, FieldsOf, Without, Interest, Nodes, Settle, Finish;
      InNodes(current, p);
      if retval == -1 {
        BlockRequest(current, p);
      } else if retval == 0 {
        Keep(current, p, current.fields.(timeLast := answers.now));
        SettleTwice(old(Value()), p, current.fields, Finish(current.fields, answers.last));
        FreeRequest(current, p, answers.last);
      } else if retval == 1 {
        Keep(current, p, current.fields.(timeLast := answers.now));
      } else {
        Keep(current, p, current.fields.(work := current.fields.work.(status := Dead)));
      }
    }

    /** One round of the loop in `process_requests`. */
    method VisitCurrent(current: Request, ghost p: nat, turn: Turn) returns (next: Request?)
      requires Scanning() && p < |ready.items| && ready.items[p] == current
      modifies this`totalConnections, this`pendingRequests, this`pfdLen, ready, block, free, pfds, Nodes()
      ensures Scanning()
      ensures var n := old(|ready.items|) - p;
              && Value() == Step(cfg, old(Value()), n, turn) && n - 1 <= |ready.items|
              && ready.items[|ready.items| - (n - 1)..] == old(ready.items[p + 1..])
              && next == At(ready.items, |ready.items| - (n - 1))
      ensures old(Nodes()) <= Nodes() && fresh(Nodes() - old(Nodes()))
    {
      hide Separate, FieldsOf, Nodes, Without, Serve, Dispatched, Settle, Attended, Counted, Step, Visit, At, Value, Lists;
      ghost var s, n := Value(), |ready.items| - p;
      var retval; ghost var q;
      Lengths();
      StepByParts(cfg, s, p, turn);
      StepKeeps(cfg, s, n, turn);
      RoomToSettle(cfg, s, p, turn);
      retval, next, q := Attend(current, p, turn);
      Lengths();
      Continuation(ready.items, q, old(ready.items), p);
      ghost var nodes := Nodes();
      assert old(Nodes()) <= nodes && fresh(nodes - old(Nodes()));
      Dispatch(current, q, retval, turn.answers);
      assert Nodes() == nodes;
      Lengths();
    }

    lemma Lengths()
      requires Arrays()
      ensures |Value().ready| == |ready.items| && |Value().block| == |block.items| && |Value().pfds| == pfdLen
      ensures Value().total == totalConnections
    {
    }

    method VisitNext(ghost list: seq<Request>, k: nat, current: Request, turn: Turn) returns (next: Request?)
      requires Scanning() && Aligned(ready, list, k, current)
      modifies this`totalConnections, this`pendingRequests, this`pfdLen, ready, block, free, pfds, Nodes()
      ensures Scanning() && k < |list| && current == list[k] && Aligned(ready, list, k + 1, next)
      ensures |list| - k <= |old(Value()).ready| && Value() == Step(cfg, old(Value()), |list| - k, turn)
      ensures old(Nodes()) <= Nodes() && fresh(Nodes() - old(Nodes()))
    {
      hide Separate, FieldsOf, Nodes, Step, Counted;
      ghost var p := |ready.items| - (|list| - k);
      assert ready.items[p..][0] == list[k..][0];
      assert ready.items[p + 1..] == ready.items[p..][1..] && list[k + 1..] == list[k..][1..];
      next := VisitCurrent(current, p, turn);
    }

    /** The loop of `process_requests`. */
    method ScanReady(turns: nat -> Turn) returns (ghost visited: seq<Request>)
      requires Scanning()
      modifies this`totalConnections, this`pendingRequests, this`pfdLen, ready, block, free, pfds, Nodes()
      ensures Scanning() && visited == old(ready.items) && Distinct(visited)
      ensures Value() == Scan(cfg, old(Value()), |visited|, FromEnd(turns, |visited|))
      ensures old(Nodes()) <= Nodes() && fresh(Nodes() - old(Nodes()))
    {
      hide Separate, FieldsOf, Nodes, Step, Counted, Arrays, Aligned, Scan, FromEnd;
      var k := 0;
      ghost var list := ready.items;
      ghost var t := FromEnd(turns, |list|);
      visited := [];
      var current := ready.head;
      AlignedStart(ready, block, free);
      AlignedBounds(ready, list, 0, current);
      while current != null
        invariant Scanning() && Aligned(ready, list, k, current)
        invariant k <= |list| && |list| - k <= |ready.items| && (current == null <==> k == |list|)
        invariant Scan(cfg, Value(), |list| - k, t) == Scan(cfg, old(Value()), |list|, t)
        invariant visited == list[..k]
        invariant old(Nodes()) <= Nodes() && fresh(Nodes() - old(Nodes()))
        decreases |list| - k
      {
        visited := visited + [current];
        ScanStep(cfg, Value(), |list| - k, t);
        FromEndAt(turns, |list|, k);
        label before:
        current := VisitNext(list, k, current, turns(k));
        k := k + 1;
        AlignedBounds(ready, list, k, current);
        forall r | r in Nodes() && r !in old(Nodes())
          ensures fresh(r)
        {
          assert r in old@before(Nodes()) || fresh@before(r);
        }
      }
      AlignedBounds(ready, list, k, current);
      ScanNone(cfg, Value(), t);
    }

    method AcceptFirst(first: Accept, now: int)
      requires Scanning()
      modifies this`totalConnections, this`pendingRequests, ready, free, Nodes()
      ensures Scanning() && Value() == Arrive(cfg, old(Value()), first, now)
      ensures ready.items == old(ready.items) || (ready.items != [] && ready.items[1..] == old(ready.items))
      ensures old(Nodes()) <= Nodes() && fresh(Nodes() - old(Nodes()))
    {
      hide Separate, FieldsOf, Nodes, Counted, Scheduler.GetRequest;
      ArriveKeeps(cfg, Value(), first, now);
      if pendingRequests {
        GetRequest(first, now);
      }
    }

    /** `process_requests`; `turns` gives the answers of the visits in order. Every request that is
        on the ready list when the scan starts is visited exactly once, in list order. */
    method ProcessRequests(first: Accept, now: int, turns: nat -> Turn) returns (ghost visited: seq<Request>)
      requires Scanning()
      modifies this`totalConnections, this`pendingRequests, this`pfdLen, ready, block, free, pfds, Nodes()
      ensures Scanning()
      ensures visited == old(ready.items) || (visited != [] && visited[1..] == old(ready.items))
      ensures Distinct(visited)
      ensures Value() == Pass(cfg, old(Value()), first, now, FromEnd(turns, |visited|))
      ensures old(Nodes()) <= Nodes() && fresh(Nodes() - old(Nodes()))
    {
      hide Separate, FieldsOf, Nodes, Counted, Scan, Arrive, Lists, Arrays;
      AcceptFirst(first, now);
      label before:
      visited := ScanReady(turns);
      forall r | r in Nodes() && r !in old(Nodes())
        ensures fresh(r)
      {
        assert r in old@before(Nodes()) || fresh@before(r);
      }
    }

    /** `ready_request`; `fields` holds what became of the request while it slept. */
    method ReadyRequest(req: Request, ghost p: nat, fields: Fields)
      requires Lists() && p < |block.items| && block.items[p] == req
      modifies ready, block, req`fields, Nodes()`next, Nodes()`prev
      ensures Lists() && ready.items == [req] + old(ready.items) && block.items == Without(old(block.items), p)
      ensures free.items == old(free.items) && Nodes() == old(Nodes())
      ensures FieldsOf(ready.items) == [fields] + old(FieldsOf(ready.items))
      ensures FieldsOf(block.items) == Without(old(FieldsOf(block.items)), p)
    {
      hide Separate, FieldsOf, Without, Nodes;
      BlockToReady(req, p);
      SetFields(old(ready.items), block.items, req, fields);
      FieldsCons(req, old(ready.items));
    }

    /** `dequeue` from the blocked list and `enqueue` on the ready one. */
    method BlockToReady(req: Request, ghost p: nat)
      requires Lists() && p < |block.items| && block.items[p] == req
      modifies ready, block, Nodes()`next, Nodes()`prev
      ensures Lists() && block.items == Without(old(block.items), p) && ready.items == [req] + old(ready.items)
      ensures free.items == old(free.items) && Nodes() == old(Nodes())
      ensures req !in block.items && req !in old(ready.items) && req in Nodes()
      ensures FieldsOf(block.items) == Without(old(FieldsOf(block.items)), p)
      ensures FieldsOf(old(ready.items)) == old(FieldsOf(ready.items))
    {
      hide Separate, Members, Without;
      MembersMove(block.items, p, ready.items);
      SeparateOrder(ready, block, free);
      Move(block, ready, free, req, p);
      SeparateOrder(block, ready, free);
      FieldsWithout(old(block.items), p);
      assert FieldsOf(old(block.items)) == old(FieldsOf(block.items));
    }

    /** One round of the loop in `update_blocked`: `polled` is what the current array holds. */
    method Reconsider(current: Request, ghost p: nat, ghost polled: seq<Pollfd>, revents: nat -> Revents, now: int)
        returns (next: Request?)
      requires Lists() && Arrays() && p < |block.items| && block.items[p] == current && pfdLen < MAX_FD
      requires |polled| <= MAX_FD && pfds[..|polled|] == polled && current.fields.pollfdId < |polled|
      modifies this`pfdLen, ready, block, other, current`fields, Nodes()`next, Nodes()`prev
      ensures Lists() && Arrays() && Nodes() == old(Nodes()) && pfdLen <= old(pfdLen) + 1
      ensures View(other) == UpdateStep(old(View(other)), old(|block.items|) - p, polled, Waker(cfg, revents, now))
      ensures var n := old(|block.items|) - p;
              && n - 1 <= |block.items| && block.items[|block.items| - (n - 1)..] == old(block.items[p + 1..])
              && next == At(block.items, |block.items| - (n - 1))
    {
      hide Separate, FieldsOf, Without, Nodes, Wake;
      FieldsAt(block.items, p);
      SeparateOrder(ready, block, free);
      NextAt(block, ready, free, p);
      next := current.next;
      Rest(block.items, p, block.items, p);
      var fields := current.fields;
      var woken := Wake(cfg, fields, revents(fields.pollfdId), now);
      if woken.None? {
        other[pfdLen] := Pollfd(pfds[fields.pollfdId].fd, pfds[fields.pollfdId].events);
        Renumber(current, p);
      } else {
        ReadyRequest(current, p, woken.value);
      }
    }

    /** A sleeping request moves to the next entry of the array being filled. */
    method Renumber(req: Request, ghost p: nat)
      requires Lists() && Arrays() && p < |block.items| && block.items[p] == req && pfdLen < MAX_FD
      modifies this`pfdLen, req`fields
      ensures Lists() && Arrays() && pfdLen == old(pfdLen) + 1
      ensures FieldsOf(ready.items) == old(FieldsOf(ready.items))
      ensures FieldsOf(block.items) == old(FieldsOf(block.items))[p := old(req.fields).(pollfdId := old(pfdLen))]
    {
      hide Separate, FieldsOf;
      SeparateOrder(ready, block, free);
      SeparateMember(block, ready, free, p);
      ChangeFields(block.items, ready.items, req, p, req.fields.(pollfdId := pfdLen));
      pfdLen := pfdLen + 1;
    }

    /** `update_blocked`, with `pfdLen` reset: `polled` is what the current array holds. */
    method UpdateBlocked(ghost polled: seq<Pollfd>, revents: nat -> Revents, now: int)
      requires Lists() && Arrays() && pfdLen == 0 && |block.items| <= MAX_FD
      requires |polled| <= MAX_FD && pfds[..|polled|] == polled
      requires forall i :: 0 <= i < |block.items| ==> block.items[i].fields.pollfdId < |polled|
      modifies this`pfdLen, ready, block, other, Nodes()
      ensures Lists() && Arrays() && Nodes() == old(Nodes())
      ensures View(other) == Update(old(View(other)), old(|block.items|), polled, Waker(cfg, revents, now))
    {
      hide Separate, FieldsOf, Nodes, UpdateStep, Aligned, Update;
      ghost var k, list, wake := 0, block.items, Waker(cfg, revents, now);
      var current := block.head;
      SeparateOrder(ready, block, free);
      AlignedStart(block, ready, free);
      AlignedBounds(block, list, 0, current);
      while current != null
        invariant Lists() && Arrays() && Nodes() == old(Nodes()) && Aligned(block, list, k, current)
        invariant k <= |list| && |list| - k <= |block.items| && (current == null <==> k == |list|)
        invariant pfdLen <= k && pfds[..|polled|] == polled
        invariant forall i :: k <= i < |list| ==> list[i].fields.pollfdId < |polled|
        invariant Update(View(other), |list| - k, polled, wake) == Update(old(View(other)), |list|, polled, wake)
        decreases |list| - k
      {
        UpdateUnfold(View(other), |list| - k, polled, wake);
        current := ReconsiderNext(list, k, current, polled, revents, now);
        k := k + 1;
        AlignedBounds(block, list, k, current);
      }
      UpdateNone(View(other), polled, wake);
    }

    method ReconsiderNext(ghost list: seq<Request>, ghost k: nat, current: Request, ghost polled: seq<Pollfd>,
                          revents: nat -> Revents, now: int) returns (next: Request?)
      requires Lists() && Arrays() && Aligned(block, list, k, current) && Distinct(list) && pfdLen < MAX_FD
      requires |polled| <= MAX_FD && pfds[..|polled|] == polled
      requires forall i :: k <= i < |list| ==> list[i].fields.pollfdId < |polled|
      modifies this`pfdLen, ready, block, other, Nodes()
      ensures Lists() && Arrays() && Nodes() == old(Nodes()) && pfdLen <= old(pfdLen) + 1
      ensures k < |list| && Aligned(block, list, k + 1, next)
      ensures |list| - k <= |old(View(other)).block|
              && View(other) == UpdateStep(old(View(other)), |list| - k, polled, Waker(cfg, revents, now))
      ensures forall i :: k < i < |list| ==> list[i].fields.pollfdId < |polled|
    {
      hide Separate, FieldsOf, Nodes, UpdateStep;
      ghost var p := |block.items| - (|list| - k);
      assert block.items[p..][0] == list[k..][0];
      assert block.items[p + 1..] == block.items[p..][1..] && list[k + 1..] == list[k..][1..];
      BlockedInNodes(current, p);
      next := Reconsider(current, p, polled, revents, now);
    }

    /** Everything that holds between iterations. */
    ghost predicate Valid()
      reads this, ready, block, free, ready.items, block.items, free.items, pfds
    {
      Lists() && Arrays() && Inv(cfg, Value()) && cfg.maxConnections <= MAX_FD - 20
    }

    /** The server socket joins the entries while there is room for connections. */
    method WatchSocket()
      requires Valid() && (Open(cfg, Value()) ==> pfdLen < MAX_FD)
      modifies this`pfdLen, this`pendingRequests, pfds
      ensures Valid() && Value() == Watch(cfg, old(Value()), socket)
    {
      hide Separate, FieldsOf, Counted, Polled;
      WatchKeeps(cfg, Value(), socket);
      ghost var entries := pfds[..pfdLen];
      if totalConnections < cfg.maxConnections {
        pfds[pfdLen] := Pollfd(socket, Readable);
        pfdLen := pfdLen + 1;
        assert pfds[..pfdLen] == entries + [Pollfd(socket, Readable)];
      }
      pendingRequests := false;
    }

    /** What follows a `poll` that was not interrupted, up to the swap of the arrays. */
    method Wakeup(round: Round)
      requires Valid() && !pendingRequests
      modifies this`pfdLen, this`pendingRequests, this`pfds, this`other, ready, block, other, Nodes()
      ensures Scanning() && Nodes() == old(Nodes())
      ensures Value() == Rouse(cfg, old(Value()), round) && Polled(Value().block, Value().pfds)
      ensures {pfds, other} == old({pfds, other})
    {
      hide Separate, FieldsOf, Counted, Polled, Update, Nodes, Decided, Waker, Lists, Inv, View;
      ghost var w := Value();
      NamedEntries();
      Lengths();
      RouseKeeps(cfg, w, round);
      StartUpdate(round);
      UpdateBlocked(w.pfds, round.revents, round.now);
      Swap();
      Lengths();
    }

    /** The two arrays change their roles. */
    method Swap()
      requires Arrays()
      modifies this`pfds, this`other
      ensures Arrays() && pfds == old(other) && other == old(pfds) && Value() == old(View(other))
    {
      pfds, other := other, pfds;
    }

    /** `poll` has returned: a connection may be pending, and the other array is still empty. */
    method StartUpdate(round: Round)
      requires Arrays()
      modifies this`pfdLen, this`pendingRequests
      ensures Arrays() && pfdLen == 0 && pfds[..|old(Value()).pfds|] == old(Value()).pfds
      ensures View(other) == old(Value()).(pfds := [], pending := Open(cfg, old(Value())) && round.serverReady)
    {
      pendingRequests := totalConnections < cfg.maxConnections && round.serverReady;
      pfdLen := 0;
      assert other[..0] == [];
    }

    lemma NamedEntries()
      requires Arrays() && Inv(cfg, Value())
      ensures forall i :: 0 <= i < |block.items| ==> block.items[i].fields.pollfdId < pfdLen
      ensures |block.items| <= pfdLen <= MAX_FD
    {
      forall i | 0 <= i < |block.items|
        ensures block.items[i].fields.pollfdId < pfdLen
      {
        assert Owns(FieldsOf(block.items)[i], pfds[..pfdLen]);
      }
    }

    /** One iteration of `loop`; an interrupted `poll` leads straight to the next. */
    method Iterate(round: Round) returns (ghost visited: seq<Request>)
      requires Valid() && (Open(cfg, Value()) ==> pfdLen < MAX_FD)
      modifies this, ready, block, free, pfds, other, Nodes()
      ensures Valid() && {pfds, other} == old({pfds, other})
      ensures Value() == Scheduler.Iterate(cfg, socket, old(Value()), round.(turns := FromEnd(round.turns, |visited|)))
      ensures old(Nodes()) <= Nodes() && fresh(Nodes() - old(Nodes()))
    {
      hide Separate, FieldsOf, Counted, Polled, Update, Nodes, Pass, Lists;
      visited := [];
      WatchSocket();
      assert |Value().pfds| == pfdLen;
      if pfdLen != 0 && round.interrupted {
        return;
      }
      assert Nodes() == old(Nodes());
      label before:
      visited := AfterPoll(round);
      forall r | r in Nodes() && r !in old(Nodes())
        ensures fresh(r)
      {
        assert fresh@before(r);
      }
      IterateKeeps(cfg, socket, old(Value()), round.(turns := FromEnd(round.turns, |visited|)));
    }

    /** What follows a `poll` that was not interrupted. */
    method AfterPoll(round: Round) returns (ghost visited: seq<Request>)
      requires Valid() && !pendingRequests
      modifies this`totalConnections, this`pfdLen, this`pendingRequests, this`pfds, this`other, ready, block, free, pfds, other,
               Nodes()
      ensures Scanning() && {pfds, other} == old({pfds, other})
      ensures Value() == Pass(cfg, Rouse(cfg, old(Value()), round), round.first, round.now, FromEnd(round.turns, |visited|))
      ensures old(Nodes()) <= Nodes() && fresh(Nodes() - old(Nodes()))
    {
      hide Separate, FieldsOf, Counted, Polled, Update, Nodes, Pass, Lists, Rouse, Inv;
      Wakeup(round);
      label before:
      visited := ProcessRequests(round.first, round.now, round.turns);
      forall r | r in Nodes() && r !in old(Nodes())
        ensures fresh(r)
      {
        assert r in old@before(Nodes()) || fresh@before(r);
      }
    }

    /** A run of the server from its start: `rounds` is what the world answers, and `counts` how many
        requests the iterations visited. The arrays have room as long as `poll` is not interrupted
        too often in a row. */
    method RunRounds(rounds: seq<Round>) returns (ghost counts: seq<nat>)
      requires Valid() && Value() == INITIAL && RoomFor(cfg, rounds)
      modifies this, ready, block, free, pfds, other, Nodes()
      ensures Valid() && |counts| == |rounds| && Value() == Run(cfg, socket, Played(rounds, counts))
      ensures old(Nodes()) <= Nodes() && fresh(Nodes() - old(Nodes()))
    {
      hide Nodes, Scheduler.Iterate, RoomFor, Inv, Lists, FieldsOf;
      counts := [];
      for i := 0 to |rounds|
        invariant Valid() && {pfds, other} == old({pfds, other}) && |counts| == i
        invariant Value() == Run(cfg, socket, Played(rounds, counts))
        invariant old(Nodes()) <= Nodes() && fresh(Nodes() - old(Nodes()))
      {
        RoomForNext(rounds, counts);
        PlayedSnoc(rounds, counts);
        label before:
        ghost var visited := Iterate(rounds[i]);
        counts := counts + [|visited|];
        forall r | r in Nodes() && r !in old(Nodes())
          ensures fresh(r)
        {
          assert r in old@before(Nodes()) || fresh@before(r);
        }
      }
    }

    /** The server started and run. */
    static method Start(cfg: Config, socket: int, rounds: seq<Round>) returns (d: Daemon, ghost counts: seq<nat>)
      requires cfg.maxConnections <= MAX_FD - 20 && RoomFor(cfg, rounds)
      ensures d.cfg == cfg && d.socket == socket && d.Valid()
      ensures |counts| == |rounds| && d.Value() == Run(cfg, socket, Played(rounds, counts))
    {
      d := new Daemon(cfg, socket);
      PolledNone();
      counts := d.RunRounds(rounds);
    }

    lemma RoomForNext(rounds: seq<Round>, counts: seq<nat>)
      requires Valid() && RoomFor(cfg, rounds) && |counts| < |rounds|
      requires Value() == Run(cfg, socket, Played(rounds, counts))
      ensures Arrays() && (Open(cfg, Value()) ==> pfdLen < MAX_FD)
    {
      var played := Played(rounds, counts);
      EveryRun(cfg, socket, played);
      TrailingPlayed(rounds, counts);
      assert |pfds[..pfdLen]| == pfdLen;
    }
  }
}
