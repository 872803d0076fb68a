/** The three intrusive lists of requests (src/queue.c:36-145): `enqueue` puts a node in front,
    `dequeue` unlinks it from anywhere. */
module Queues {
  import opened Commons
  import opened Requests

  class Request {
    var next: Request?
    var prev: Request?
    var fields: Fields

    constructor (fields: Fields)
      ensures this.fields == fields && next == prev == null
    {
      this.fields := fields;
      next, prev := null, null;
    }
  }

  /** The node at position `i`, or null on either side of the list. */
  function At(s: seq<Request>, i: int): Request? { if 0 <= i < |s| then s[i] else null }

  ghost predicate Forward(s: seq<Request>)
    reads s`next
  {
    forall i :: 0 <= i < |s| ==> s[i].next == At(s, i + 1)
  }

  ghost predicate Backward(s: seq<Request>)
    reads s`prev
  {
    forall i :: 0 <= i < |s| ==> s[i].prev == At(s, i - 1)
  }

  function Without<T>(s: seq<T>, i: nat): (r: seq<T>)
    requires i < |s|
    ensures |r| == |s| - 1
  {
    s[..i] + s[i + 1..]
  }

  lemma WithoutAt(s: seq<Request>, i: nat, j: int)
    requires i < |s|
    ensures At(Without(s, i), j) == At(s, if j < i then j else j + 1)
    ensures 0 <= j < |s| - 1 ==> Without(s, i)[j] == At(Without(s, i), j)
  {
  }

  /** The neighbours of node `j` once node `i` is gone. */
  function After(s: seq<Request>, i: int, j: int): Request? { At(s, if j == i - 1 then i + 1 else j + 1) }

  function Before(s: seq<Request>, i: int, j: int): Request? { At(s, if j == i + 1 then i - 1 else j - 1) }

  /** `s` is linked as if its node `i` were not there. */
  ghost predicate Skips(s: seq<Request>, i: nat)
    reads s`next, s`prev
  {
    forall j {:trigger s[j]} :: 0 <= j < |s| && j != i ==> s[j].next == After(s, i, j) && s[j].prev == Before(s, i, j)
  }

  lemma SkipsNode(s: seq<Request>, i: nat, k: nat)
    requires Skips(s, i) && k < |s| && k != i
    ensures s[k].next == After(s, i, k) && s[k].prev == Before(s, i, k) && At(s, k) == s[k]
  {
  }

  lemma SkipsAt(s: seq<Request>, i: nat, j: nat)
    requires i < |s| && Skips(s, i) && j < |s| - 1
    ensures var t := Without(s, i); t[j].next == At(t, j + 1) && t[j].prev == At(t, j - 1)
  {
    hide Without, Skips, At;
    SkipsNode(s, i, if j < i then j else j + 1);
    WithoutAt(s, i, j);
    WithoutAt(s, i, j + 1);
    WithoutAt(s, i, j - 1);
  }

  lemma SkipsUnlinks(s: seq<Request>, i: nat)
    requires i < |s| && Skips(s, i)
    ensures Forward(Without(s, i)) && Backward(Without(s, i))
  {
    hide At, Without, Skips;
    forall j | 0 <= j < |Without(s, i)|
      ensures Without(s, i)[j].next == At(Without(s, i), j + 1) && Without(s, i)[j].prev == At(Without(s, i), j - 1)
    {
      SkipsAt(s, i, j);
    }
  }

  lemma Neighbours(s: seq<Request>, i: nat)
    requires i < |s| && Forward(s) && Backward(s) && Distinct(s)
    ensures s[i].next == At(s, i + 1) && s[i].prev == At(s, i - 1)
    ensures i == 0 <==> At(s, 0) == s[i]
    ensures At(s, i - 1) == (if i > 0 then s[i - 1] else null)
    ensures At(s, i + 1) == (if i + 1 < |s| then s[i + 1] else null)
    ensures forall j :: 0 <= j < |s| && j != i ==> s[j] != s[i]
    ensures forall j :: 0 <= j < |s| && j != i - 1 ==> s[j] != At(s, i - 1)
    ensures forall j :: 0 <= j < |s| && j != i + 1 ==> s[j] != At(s, i + 1)
    ensures forall j :: 0 <= j < |s| ==> s[j].next == At(s, j + 1) && s[j].prev == At(s, j - 1)
  {
  }

  lemma WithoutDistinct(s: seq<Request>, i: nat)
    requires i < |s| && Distinct(s)
    ensures Distinct(Without(s, i)) && s[i] !in Without(s, i) && forall r :: r in Without(s, i) ==> r in s
    ensures forall r :: r in s ==> r == s[i] || r in Without(s, i)
  {
    var t := Without(s, i);
    forall r | r in s && r != s[i]
      ensures r in t
    {
      var j :| 0 <= j < |s| && s[j] == r;
      assert r == t[if j < i then j else j - 1];
    }
  }

  class Queue {
    var head: Request?
    ghost var items: seq<Request>

    ghost predicate Valid()
      reads this, items`next, items`prev
    {
      head == At(items, 0) && Forward(items) && Backward(items) && Distinct(items)
    }

    constructor ()
      ensures Valid() && items == []
    {
      head := null;
      items := [];
    }

    /** `enqueue` */
    method Enqueue(req: Request)
      requires Valid() && req !in items
      modifies this, req`next, req`prev, items`prev
      ensures Valid() && items == [req] + old(items)
    {
      if head != null {
        head.prev := req;
      }
      req.next := head;
      req.prev := null;
      head := req;
      items := [req] + items;
      assert forall j :: 0 <= j < |items| - 1 ==> items[j + 1] == old(items)[j];
    }

    /** `dequeue` of the request at position `i`. */
    method Dequeue(req: Request, ghost i: nat)
      requires Valid() && i < |items| && items[i] == req
      modifies this, items`next, items`prev
      ensures Valid() && items == Without(old(items), i) && req.next == req.prev == null
    {
      hide Forward, Backward, Distinct, Without, At;
      Neighbours(items, i);
      WithoutAt(items, i, 0);
      WithoutDistinct(items, i);
      if head == req {
        head := req.next;
      }
      if req.prev != null {
        req.prev.next := req.next;
      }
      if req.next != null {
        req.next.prev := req.prev;
      }
      req.next := null;
      req.prev := null;
      SkipsUnlinks(items, i);
      items := Without(items, i);
    }
  }
}
