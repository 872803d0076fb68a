/** Lists of byte ranges and their node pool (src/range.c): in-place relinking of heap nodes,
    the parser that fills a list and the pass that fits it to the file. */
module RangeList {
  import opened Commons
  import opened RangeSyntax

  // ----- Fitting one range to a file -----------------------------------------------

  const SIGN_BIT := 0x8000_0000_0000_0000

  /** What the body of the `ranges_fixup` loop makes of one range; `None` drops it. */
  datatype Fitted = Dropped | Kept(spec: Spec)

  /** Section 14.35.1 of RFC 2616: "a-b", "a-" and "-n" against a file of `filesize` bytes. */
  function Requested(r: Spec, filesize: int): Fitted {
    if r.start == NOT_GIVEN then
      var n := if r.stop < filesize then r.stop else filesize;
      if n == 0 then Dropped else Kept(Spec(filesize - n, filesize - 1))
    else if r.start >= filesize || r.start > r.stop then Dropped
    else Kept(Spec(r.start, if r.stop < filesize then r.stop else filesize - 1))
  }

  /** The inputs on which the code departs from the standard: a suffix that covers the file loses
      its first byte, and the number 2^32-1 is taken for a missing one. */
  predicate Quirk(r: Spec, filesize: int) {
    if r.start == NOT_GIVEN then r.stop >= filesize || (r.stop == UNSIGNED_MINUS_ONE && r.stop != filesize - 1)
    else r.stop == UNSIGNED_MINUS_ONE && r.stop < filesize - 1 && r.start < filesize
  }

  /** Every kept range lies inside the file, and the result is the requested one except in the
      two quirks. */
  function FitOne(r: Spec, filesize: int): (f: Fitted)
    requires 0 <= r.start < WRAP && 0 <= r.stop < WRAP && 0 < filesize < SIGN_BIT
    ensures f.Kept? ==> 0 <= f.spec.start <= f.spec.stop < filesize
    ensures f == Requested(r, filesize) <==> !Quirk(r, filesize)
    ensures r.start == NOT_GIVEN && 0 < r.stop < filesize && r.stop != UNSIGNED_MINUS_ONE ==>
              f == Kept(Spec(filesize - r.stop, filesize - 1))
  {
    var stop := if r.stop == UNSIGNED_MINUS_ONE || r.stop >= filesize then filesize - 1 else r.stop;
    var fitted := if r.start == NOT_GIVEN then Spec(filesize - stop, filesize - 1) else Spec(r.start, stop);
    if fitted.start >= SIGN_BIT || fitted.start > fitted.stop then Dropped else Kept(fitted)
  }

  /** What becomes of a hyphen alone: all of the file but its first byte. */
  lemma HyphenServed(filesize: int)
    requires 0 < filesize < SIGN_BIT
    ensures FitOne(Spec(NOT_GIVEN, NOT_GIVEN), filesize)
         == if filesize > 1 then Kept(Spec(1, filesize - 1)) else Dropped
  {
  }

  /** The pass over the first `k` ranges of a list: the kept ones, in order. */
  function FitAll(specs: seq<Spec>, filesize: int, k: nat): (r: seq<Spec>)
    requires k <= |specs| && Storable(specs) && 0 < filesize < SIGN_BIT
    ensures |r| <= k
    ensures forall i :: 0 <= i < |r| ==> 0 <= r[i].start <= r[i].stop < filesize
  {
    if k == 0 then []
    else
      var f := FitOne(specs[k - 1], filesize);
      FitAll(specs, filesize, k - 1) + (if f.Kept? then [f.spec] else [])
  }

  lemma FitNext(specs: seq<Spec>, filesize: int, k: nat)
    requires k < |specs| && Storable(specs) && 0 < filesize < SIGN_BIT
    ensures var f := FitOne(specs[k], filesize);
            FitAll(specs, filesize, k + 1) == if f.Kept? then FitAll(specs, filesize, k) + [f.spec] else FitAll(specs, filesize, k)
  {
  }

  // ----- Nodes --------------------------------------------------------------------

  class Range {
    var start: int
    var stop: int
    var next: Range?

    constructor ()
      ensures start == stop == 0 && next == null
    {
      start, stop, next := 0, 0, null;
    }
  }

  /** The node at position `i`, or null past the end. */
  function At(s: seq<Range>, i: int): Range? { if 0 <= i < |s| then s[i] else null }

  /** Every node points to its successor in `s`, the last one to nothing. */
  ghost predicate Linked(s: seq<Range>)
    reads s`next
  {
    forall i :: 0 <= i < |s| ==> s[i].next == At(s, i + 1)
  }

  /** `head` starts a null-terminated list of the nodes `s`, each once. */
  ghost predicate Chain(head: Range?, s: seq<Range>)
    reads s`next
  {
    head == At(s, 0) && Linked(s) && Distinct(s)
  }

  lemma ChainCons(r: Range, s: seq<Range>)
    requires Chain(r.next, s) && r !in s
    ensures Chain(r, [r] + s)
  {
    assert forall i :: 0 <= i < |s| ==> ([r] + s)[i + 1] == s[i];
  }

  lemma ChainTail(head: Range?, s: seq<Range>)
    requires Chain(head, s) && head != null
    ensures s != [] && s[0] == head && Chain(head.next, s[1..]) && head !in s[1..]
  {
  }

  lemma ChainSingle(r: Range)
    requires r.next == null
    ensures Chain(r, [r])
  {
  }

  lemma ApartSingle(r: Range, s: seq<Range>)
    requires r !in s
    ensures Apart([r], s)
  {
  }

  /** Every node of `s` points to its successor, the last one to `r`. */
  ghost predicate LinkedTo(s: seq<Range>, r: Range?)
    reads s`next
  {
    forall i :: 0 <= i < |s| ==> s[i].next == AtOr(s, i + 1, r)
  }

  function AtOr(s: seq<Range>, i: int, r: Range?): Range? { if 0 <= i < |s| then s[i] else r }

  lemma LinkedToChain(s: seq<Range>)
    requires LinkedTo(s, null) && Distinct(s)
    ensures Chain(At(s, 0), s)
  {
    assert forall j :: AtOr(s, j, null) == At(s, j);
  }

  lemma LinkedToSnoc(s: seq<Range>, r: Range)
    requires LinkedTo(s, r)
    ensures LinkedTo(s + [r], r.next)
  {
    assert forall j :: 0 <= j <= |s| ==> AtOr(s, j, r) == AtOr(s + [r], j, r.next);
  }

  ghost function Value(r: Range): Spec
    reads r`start, r`stop
  {
    Spec(r.start, r.stop)
  }

  ghost function Values(s: seq<Range>): (r: seq<Spec>)
    reads s`start, s`stop
    ensures |r| == |s| && forall i :: 0 <= i < |s| ==> r[i] == Value(s[i])
  {
    if s == [] then [] else Values(s[..|s| - 1]) + [Value(s[|s| - 1])]
  }

  lemma ValuesSingle(r: Range)
    ensures Values([r]) == [Value(r)]
  {
    assert [] + [r] == [r];
    ValuesSnoc([], r);
  }

  lemma ValuesSnoc(s: seq<Range>, r: Range)
    ensures Values(s + [r]) == Values(s) + [Value(r)]
  {
    assert (s + [r])[..|s|] == s;
  }

  /** The nodes the pass keeps, and those it gives back, among the first `k`. */
  ghost function KeptNodes(s: seq<Range>, specs: seq<Spec>, filesize: int, k: nat): (r: seq<Range>)
    requires k <= |s| == |specs| && Storable(specs) && 0 < filesize < SIGN_BIT
    ensures |r| == |FitAll(specs, filesize, k)|
    ensures forall x :: x in r ==> x in s[..k]
  {
    if k == 0 then []
    else KeptNodes(s, specs, filesize, k - 1) + (if FitOne(specs[k - 1], filesize).Kept? then [s[k - 1]] else [])
  }

  ghost function DroppedNodes(s: seq<Range>, specs: seq<Spec>, filesize: int, k: nat): (r: seq<Range>)
    requires k <= |s| == |specs| && Storable(specs) && 0 < filesize < SIGN_BIT
  {
    if k == 0 then []
    else DroppedNodes(s, specs, filesize, k - 1) + (if FitOne(specs[k - 1], filesize).Kept? then [] else [s[k - 1]])
  }

  /** No node is lost or shared by the pass. */
  lemma {:induction false} NodesConserved(s: seq<Range>, specs: seq<Spec>, filesize: int, k: nat)
    requires k <= |s| == |specs| && Storable(specs) && 0 < filesize < SIGN_BIT
    ensures multiset(KeptNodes(s, specs, filesize, k)) + multiset(DroppedNodes(s, specs, filesize, k)) == multiset(s[..k])
  {
    hide FitOne, FitAll, KeptNodes, DroppedNodes;
    NodeSorted(s, specs, filesize, k);
    if k == 0 {
      assert s[..k] == [];
    } else {
      var kept, dropped := KeptNodes(s, specs, filesize, k - 1), DroppedNodes(s, specs, filesize, k - 1);
      NodesConserved(s, specs, filesize, k - 1);
      assert s[..k] == s[..k - 1] + [s[k - 1]];
      OneMore(kept, dropped, s[..k - 1], s[k - 1]);
    }
  }

  lemma NodeSorted(s: seq<Range>, specs: seq<Spec>, filesize: int, k: nat)
    requires k <= |s| == |specs| && Storable(specs) && 0 < filesize < SIGN_BIT
    ensures k == 0 ==> KeptNodes(s, specs, filesize, k) == DroppedNodes(s, specs, filesize, k) == []
    ensures k > 0 ==>
              var kept, dropped := KeptNodes(s, specs, filesize, k - 1), DroppedNodes(s, specs, filesize, k - 1);
              if FitOne(specs[k - 1], filesize).Kept? then
                KeptNodes(s, specs, filesize, k) == kept + [s[k - 1]] && DroppedNodes(s, specs, filesize, k) == dropped
              else
                KeptNodes(s, specs, filesize, k) == kept && DroppedNodes(s, specs, filesize, k) == dropped + [s[k - 1]]
  {
    hide FitOne, FitAll;
  }

  lemma OneMore<T>(a: seq<T>, b: seq<T>, both: seq<T>, x: T)
    requires multiset(a) + multiset(b) == multiset(both)
    ensures multiset(a + [x]) + multiset(b) == multiset(both + [x])
    ensures multiset(a) + multiset(b + [x]) == multiset(both + [x])
  {
  }

  lemma NoneYet(s: seq<Range>, specs: seq<Spec>, filesize: int)
    requires |s| == |specs| && Storable(specs) && 0 < filesize < SIGN_BIT
    ensures KeptNodes(s, specs, filesize, 0) == DroppedNodes(s, specs, filesize, 0) == []
    ensures FitAll(specs, filesize, 0) == Values([]) && Reverse<Range>([]) == []
  {
  }

  lemma DroppedStep(s: seq<Range>, specs: seq<Spec>, filesize: int, k: nat)
    requires k < |s| == |specs| && Storable(specs) && 0 < filesize < SIGN_BIT
    ensures Reverse(DroppedNodes(s, specs, filesize, k + 1))
         == (if FitOne(specs[k], filesize).Kept? then [] else [s[k]]) + Reverse(DroppedNodes(s, specs, filesize, k))
  {
    var d := DroppedNodes(s, specs, filesize, k);
    ReverseSnoc(d, s[k]);
    assert d + [] == d && [] + Reverse(d) == Reverse(d);
  }

  lemma EmptyChain(s: seq<Range>)
    ensures Chain(null, []) && Apart([], s)
  {
  }

  lemma DistinctAfter(s: seq<Range>, k: nat)
    requires Distinct(s) && k < |s|
    ensures forall i :: k < i < |s| ==> s[i] != s[k]
  {
  }

  /** A request's range list and the global pool. */
  class Ranges {
    var ranges: Range?
    var pool: Range?
    var numranges: nat
    ghost var list: seq<Range>
    ghost var free: seq<Range>

    ghost predicate Valid()
      reads this`ranges, this`pool, this`list, this`free, list`next, free`next
    {
      Chain(ranges, list) && Chain(pool, free) && Apart(list, free)
    }

    ghost function Nodes(): set<Range>
      reads this`list, this`free
    {
      (set x | x in list) + (set x | x in free)
    }

    /** `range_pool_push` */
    method PoolPush(r: Range)
      requires Chain(pool, free) && r !in free
      modifies this`pool, this`free, r`next
      ensures Chain(pool, free) && free == [r] + old(free)
    {
      r.next := pool;
      ChainCons(r, free);
      pool := r;
      free := [r] + free;
    }

    /** `range_pool_pop`: the node taken is on neither list. */
    method PoolPop() returns (r: Range)
      requires Valid()
      modifies this`pool, this`free, if pool == null then {} else {pool}
      ensures Valid() && r.start == r.stop == 0 && r.next == null && r !in list && r !in free
      ensures if old(free) == [] then fresh(r) && free == [] else [r] + free == old(free) && r == old(free)[0]
    {
      hide Distinct, Linked;
      if pool != null {
        r := pool;
        ChainTail(pool, free);
        assert r in free && forall x :: x in free[1..] ==> x in free;
        pool := pool.next;
        free := free[1..];
      } else {
        r := new Range();
      }
      r.start, r.stop, r.next := 0, 0, null;
    }

    /** One round of the loops that give a whole list back: push `r`, go on at its successor. */
    method PushAndAdvance(r: Range, ghost rest: seq<Range>) returns (next: Range?)
      requires Chain(r, rest) && Chain(pool, free) && Apart(rest, free)
      modifies this`pool, this`free, r`next
      ensures rest != [] && r == rest[0] && Chain(next, rest[1..])
      ensures Chain(pool, free) && free == [r] + old(free) && Apart(rest[1..], free)
    {
      ChainTail(r, rest);
      next := r.next;
      PoolPush(r);
    }

    /** The nodes from `r` on go to the pool, the last one first. */
    method PushAll(head: Range?, ghost nodes: seq<Range>)
      requires Chain(head, nodes) && Chain(pool, free) && Apart(nodes, free)
      modifies this`pool, this`free, nodes
      ensures Chain(pool, free) && free == Reverse(nodes) + old(free)
    {
      hide Distinct, Linked, Apart;
      ghost var done, rest: seq<Range> := [], nodes;
      var r := head;
      while r != null
        invariant done + rest == nodes
        invariant Chain(r, rest) && Chain(pool, free) && Apart(rest, free)
        invariant free == Reverse(done) + old(free)
        decreases |rest|
      {
        assert r == (done + rest)[|done|];
        ReverseSnoc(done, r);
        r := PushAndAdvance(r, rest);
        done, rest := done + [rest[0]], rest[1..];
      }
      assert done == nodes;
    }

    /** `ranges_reset` */
    method Reset()
      requires Valid()
      modifies this`ranges, this`pool, this`list, this`free, list
      ensures Valid() && list == [] && free == Reverse(old(list)) + old(free)
    {
      PushAll(ranges, list);
      ranges := null;
      list := [];
    }

    /** `range_abort`: a single node with `stop == -1` flags the error. */
    method Abort()
      requires Valid()
      modifies this`ranges, this`pool, this`list, this`free, list, free
      ensures Valid() && Values(list) == [Spec(0, NOT_GIVEN)] && fresh(Nodes() - old(Nodes()))
      ensures if old(list + free) == [] then fresh(list[0]) && free == [] else list + free == Reverse(old(list)) + old(free)
    {
      hide Linked, Distinct, Apart, Reverse, Values;
      Reset();
      ghost var pooled := free;
      assert pool != null ==> pool in old(list) || pool in old(free);
      var r := PoolPop();
      ranges := r;
      list := [r];
      ranges.stop := NOT_GIVEN;
      ChainSingle(r);
      ValuesSingle(r);
      ApartSingle(r, free);
      AddedNodes([], pooled, r, free);
      assert forall x :: x in pooled ==> x in old(list) || x in old(free);
    }

    /** The walk of `range_add` to the last node. */
    method FindLast() returns (prev: Range?)
      requires Valid()
      ensures prev == At(list, |list| - 1)
    {
      ghost var k := 0;
      prev := ranges;
      while prev != null
        invariant k <= |list| && prev == At(list, k) && (list != [] ==> k < |list|)
        decreases |list| - k
      {
        if prev.next == null {
          assert At(list, k + 1) == null;
          return;
        }
        prev := prev.next;
        k := k + 1;
      }
    }

    /** `range_add`: a node from the pool goes to the end of the list. */
    method Add(start: int, stop: int)
      requires Valid()
      modifies this, list, free
      ensures Valid() && Values(list) == old(Values(list)) + [Spec(start, stop)] && fresh(Nodes() - old(Nodes()))
      ensures numranges == old(numranges) + 1
      ensures |list| == |old(list)| + 1 && old(list) == list[..|old(list)|]
      ensures var r := list[|list| - 1]; if old(free) == [] then fresh(r) && free == [] else [r] + free == old(free)
    {
      hide Distinct, Linked, Values, Apart, Valid, Chain;
      ghost var before, pooled := list, free;
      PoolHead();
      var r := PoolPop();
      Append(r, start, stop);
      AddedNodes(before, pooled, r, free);
    }

    /** A node that is on neither list goes to the end of the request's. */
    method Append(r: Range, start: int, stop: int)
      requires Valid() && r !in list && r !in free && r.next == null
      modifies this`ranges, this`list, this`numranges, list, r
      ensures Valid() && list == old(list) + [r] && Values(list) == old(Values(list)) + [Spec(start, stop)]
      ensures numranges == old(numranges) + 1
    {
      hide Distinct, Linked, Values, Apart, Valid, Chain;
      var prev := FindLast();
      LinkLast(prev, r);
      r.start := start;
      r.stop := stop;
      numranges := numranges + 1;
      ValuesSnoc(old(list), r);
    }

    lemma PoolHead()
      requires Valid()
      ensures pool == At(free, 0) && (pool != null ==> pool in free)
    {
    }

    static lemma AddedNodes(list0: seq<Range>, free0: seq<Range>, r: Range, free1: seq<Range>)
      requires if free0 == [] then free1 == [] else [r] + free1 == free0
      ensures free0 != [] ==> r in free0
      ensures forall x :: x in free1 ==> x in free0
      ensures forall x :: x in list0 + [r] ==> x in list0 || x == r
    {
      assert forall x :: x in free1 ==> x in [r] + free1;
      assert free0 != [] ==> free0[0] == r;
    }

    method LinkLast(prev: Range?, r: Range)
      requires Valid() && prev == At(list, |list| - 1) && r !in list && r !in free && r.next == null
      modifies this`ranges, this`list, (if prev == null then {} else {prev})`next
      ensures list == old(list) + [r] && Valid()
    {
      if prev != null {
        assert prev in list && prev !in free;
        prev.next := r;
      } else {
        ranges := r;
      }
      list := list + [r];
    }

    // ----- ranges_fixup -------------------------------------------------------------

    /** In the middle of the pass: `kept` is linked up to `r`, from which `rest` is still to come. */
    ghost predicate Pass(r: Range?, prev: Range?, kept: seq<Range>, rest: seq<Range>)
      reads this, kept`next, rest`next, free`next
    {
      && ranges == At(kept, 0) && prev == At(kept, |kept| - 1) && LinkedTo(kept, r) && Distinct(kept)
      && Chain(r, rest) && Chain(pool, free) && Apart(kept, rest) && Apart(kept, free) && Apart(rest, free)
    }

    lemma PassStart(r: Range?)
      requires ranges == null && Chain(r, list) && Chain(pool, free) && Apart(list, free)
      ensures Pass(r, null, [], list)
    {
    }

    lemma PassNonNull(r: Range, prev: Range?, kept: seq<Range>, rest: seq<Range>)
      requires Pass(r, prev, kept, rest)
      ensures rest != [] && rest[0] == r && prev != r && (prev != null ==> prev in kept) && r !in kept
    {
      assert r in rest;
    }

    lemma PassEnd(prev: Range?, kept: seq<Range>, rest: seq<Range>)
      requires Pass(null, prev, kept, rest)
      ensures rest == [] && Chain(ranges, kept) && Chain(pool, free) && Apart(kept, free)
    {
      LinkedToChain(kept);
    }

    /** An invalid range: unlink `r` and give it back. */
    method DropNode(r: Range, prev: Range?, ghost kept: seq<Range>, ghost rest: seq<Range>) returns (next: Range?)
      requires Pass(r, prev, kept, rest)
      modifies this`pool, this`free, (if prev == null then {r} else {r, prev})`next
      ensures rest != [] && rest[0] == r && Pass(next, prev, kept, rest[1..]) && free == [r] + old(free)
    {
      ChainTail(r, rest);
      if prev != null {
        assert prev in kept && prev !in free && prev !in rest;
        prev.next := r.next;
      }
      next := r.next;
      NotAmong(r, rest, kept);
      assert LinkedTo(kept, next);
      PoolPush(r);
    }

    static lemma NotAmong(r: Range, rest: seq<Range>, kept: seq<Range>)
      requires r in rest && Apart(kept, rest)
      ensures forall i :: 0 <= i < |kept| ==> kept[i] != r
    {
      assert r !in kept;
    }

    /** A valid range stays: it becomes the head if it is the first. */
    method KeepNode(r: Range, prev: Range?, ghost kept: seq<Range>, ghost rest: seq<Range>) returns (next: Range?)
      requires Pass(r, prev, kept, rest)
      modifies this`ranges
      ensures rest != [] && rest[0] == r && Pass(next, r, kept + [r], rest[1..])
    {
      ChainTail(r, rest);
      LinkedToSnoc(kept, r);
      assert r !in kept;
      if prev == null {
        ranges := r;
      }
      next := r.next;
    }

    /** The arithmetic of the loop body, on the fields of the node. */
    method FitNode(r: Range, filesize: int) returns (valid: bool)
      requires 0 <= r.start < WRAP && 0 <= r.stop < WRAP && 0 < filesize < SIGN_BIT
      modifies r`start, r`stop
      ensures valid <==> FitOne(old(Value(r)), filesize).Kept?
      ensures valid ==> FitOne(old(Value(r)), filesize) == Kept(Value(r))
    {
      if r.stop == UNSIGNED_MINUS_ONE || r.stop >= filesize {
        r.stop := filesize - 1;
      }
      if r.start == NOT_GIVEN {
        r.start := filesize - r.stop;
        r.stop := filesize - 1;
      }
      valid := !(r.start >= SIGN_BIT || r.start > r.stop);
    }

    /** One round of the loop: fit `r`, then keep or drop it. */
    method FixupStep(r: Range, prev: Range?, filesize: int, ghost orig: seq<Range>, ghost specs: seq<Spec>,
                     ghost kept: seq<Range>, ghost k: nat)
      returns (next: Range?, last: Range?, ghost kept': seq<Range>)
      requires k < |orig| == |specs| && Storable(specs) && 0 < filesize < SIGN_BIT
      requires Pass(r, prev, kept, orig[k..]) && Value(orig[k]) == specs[k]
      requires kept == KeptNodes(orig, specs, filesize, k) && Values(kept) == FitAll(specs, filesize, k)
      modifies this`ranges, this`pool, this`free, r, (if prev == null then {} else {prev})`next
      ensures r == orig[k] && Pass(next, last, kept', orig[k + 1..])
      ensures kept' == KeptNodes(orig, specs, filesize, k + 1) && Values(kept') == FitAll(specs, filesize, k + 1)
      ensures if FitOne(specs[k], filesize).Kept? then free == old(free) else free == [r] + old(free)
    {
      hide Distinct, Linked, LinkedTo, Values, FitOne, FitAll, KeptNodes, DroppedNodes, Pass;
      PassNonNull(r, prev, kept, orig[k..]);
      NodeSorted(orig, specs, filesize, k + 1);
      FitNext(specs, filesize, k);
      assert r == orig[k..][0] == orig[k];
      assert orig[k..][1..] == orig[k + 1..];
      var valid := FitNode(r, filesize);
      if valid {
        ValuesSnoc(kept, r);
        next := KeepNode(r, prev, kept, orig[k..]);
        last, kept' := r, kept + [r];
      } else {
        next := DropNode(r, prev, kept, orig[k..]);
        last, kept' := prev, kept;
      }
    }

    /** The loop of `ranges_fixup` over the detached nodes `orig`. */
    method FixupNodes(head: Range?, filesize: int, ghost orig: seq<Range>, ghost specs: seq<Spec>)
      returns (ghost kept: seq<Range>)
      requires ranges == null && list == orig && Chain(head, orig) && Chain(pool, free) && Apart(orig, free)
      requires specs == Values(orig) && Storable(specs) && 0 < filesize < SIGN_BIT
      modifies this`ranges, this`pool, this`free, orig
      ensures Chain(ranges, kept) && Chain(pool, free) && Apart(kept, free)
      ensures kept == KeptNodes(orig, specs, filesize, |orig|) && Values(kept) == FitAll(specs, filesize, |orig|)
      ensures free == Reverse(DroppedNodes(orig, specs, filesize, |orig|)) + old(free)
    {
      hide Distinct, Linked, LinkedTo, Values, FitOne, FitAll, KeptNodes, DroppedNodes, Reverse, Pass, Apart;
      var r, prev := head, null;
      ghost var k := 0;
      kept := [];
      NoneYet(orig, specs, filesize);
      PassStart(r);
      assert orig[0..] == orig && [] + old(free) == old(free);
      while r != null
        invariant k <= |orig| && Pass(r, prev, kept, orig[k..])
        invariant kept == KeptNodes(orig, specs, filesize, k) && Values(kept) == FitAll(specs, filesize, k)
        invariant free == Reverse(DroppedNodes(orig, specs, filesize, k)) + old(free)
        invariant forall i :: k <= i < |orig| ==> Value(orig[i]) == specs[i]
        decreases |orig| - k
      {
        PassNonNull(r, prev, kept, orig[k..]);
        DroppedStep(orig, specs, filesize, k);
        DistinctAfter(orig, k);
        r, prev, kept := FixupStep(r, prev, filesize, orig, specs, kept, k);
        k := k + 1;
      }
      PassEnd(prev, kept, orig[k..]);
    }

    /** `ranges_fixup`: the list becomes the kept nodes in order with their fitted values, and the
        others go to the pool. The result says whether any range is left. */
    method Fixup(filesize: int) returns (ok: bool)
      requires Valid() && Storable(Values(list)) && 0 <= filesize < SIGN_BIT
      modifies this`ranges, this`pool, this`list, this`free, list
      ensures Valid() && (ok <==> list != [])
      ensures filesize == 0 ==> list == [] && free == Reverse(old(list)) + old(free)
      ensures filesize > 0 ==>
                var s, specs, n := old(list), old(Values(list)), old(|list|);
                && list == KeptNodes(s, specs, filesize, n) && Values(list) == FitAll(specs, filesize, n)
                && free == Reverse(DroppedNodes(s, specs, filesize, n)) + old(free)
    {
      hide Distinct, Linked, LinkedTo, Values, FitOne, FitAll, KeptNodes, DroppedNodes, Reverse;
      ghost var orig, specs := list, Values(list);
      var r := ranges;
      ranges := null;
      if filesize == 0 {
        PushAll(r, orig);
        EmptyChain(free);
        list := [];
        return false;
      }
      list := FixupNodes(r, filesize, orig, specs);
      ok := ranges != null;
    }

    // ----- range_parse --------------------------------------------------------------

    /** `strncasecmp(str, "bytes=", 6) == 0` */
    static predicate BytesPrefix(str: string) {
      |str| >= 6 && Lower(str[0]) == 'b' && Lower(str[1]) == 'y' && Lower(str[2]) == 't' && Lower(str[3]) == 'e'
      && Lower(str[4]) == 's' && str[5] == '='
    }

    /** The prefix is "bytes=" with its letters in either case. */
    static lemma PrefixExactly(str: string)
      ensures BytesPrefix(str)
              <==> |str| >= 6 && str[0] in {'b', 'B'} && str[1] in {'y', 'Y'} && str[2] in {'t', 'T'} && str[3] in {'e', 'E'}
                   && str[4] in {'s', 'S'} && str[5] == '='
    {
    }

    static lemma OnlyNul(c: char)
      ensures CharCode(c) == NULL <==> c == '\0'
    {
    }

    /** The table look-up and the two number updates of one character. */
    method LookUp(mode: int, start0: int, stop0: int, c: char, ghost out: seq<Spec>) returns (fcode: int, start: int, stop: int)
      requires 0 <= mode <= 4
      ensures 0 <= Next(fcode) <= 4 && (CharCode(c) == NULL <==> c == '\0')
      ensures Step(Running(mode, start0, stop0, out), c)
           == if Act2(fcode) == AR || (Act2(fcode) == SR && Forbidden(Spec(start, stop))) then Rejected(out)
              else
                var out' := if Act2(fcode) == SR then out + [Spec(start, stop)] else out;
                if c == '\0' then Accepted(out')
                else if Act2(fcode) == SR then Running(Next(fcode), 0, 0, out')
                else Running(Next(fcode), start, stop, out')
    {
      hide Step, Shift, Forbidden, STABLE, CharCode;
      TableReadOut(Running(mode, start0, stop0, out), c);
      NextRow(mode * 6 + CharCode(c));
      OnlyNul(c);
      fcode, start, stop := STABLE[mode * 6 + CharCode(c)], start0, stop0;
      if Act1(fcode) == PB {
        start := Shift(start, c);
      } else if Act1(fcode) == DB {
        start := NOT_GIVEN;
      } else if Act1(fcode) == PE {
        stop := Shift(stop, c);
      } else if Act1(fcode) == DE {
        stop := NOT_GIVEN;
      }
    }

    /** The action a table entry asks for: abort, add the range read so far, or nothing. */
    method Act(fcode: int, start0: int, stop0: int) returns (aborted: bool, start: int, stop: int)
      requires Valid()
      modifies this, Nodes()
      ensures Valid() && fresh(Nodes() - old(Nodes()))
      ensures var add := Act2(fcode) == SR && !aborted;
              && (aborted <==> Act2(fcode) == AR || (Act2(fcode) == SR && Forbidden(Spec(start0, stop0))))
              && Values(list) == (if aborted then [Spec(0, NOT_GIVEN)] else if add then old(Values(list)) + [Spec(start0, stop0)]
                                  else old(Values(list)))
              && numranges == (if add then old(numranges) + 1 else old(numranges))
              && start == (if add then 0 else start0) && stop == if add then 0 else stop0
    {
      hide Distinct, Linked, Apart, Chain, Values, Act2, Valid;
      start, stop, aborted := start0, stop0, false;
      if Act2(fcode) == AR {
        Abort();
        aborted := true;
      } else if Act2(fcode) == SR {
        if start == stop && start == UNSIGNED_MINUS_ONE {
          Abort();
          aborted := true;
        } else {
          Add(start, stop);
          start, stop := 0, 0;
        }
      }
    }

    /** The loop of `range_parse`, from behind the prefix to the NUL that ends `s`. */
    method ParseSpecs(s: string) returns (ok: bool)
      requires Valid() && '\0' !in s
      modifies this, Nodes()
      ensures Valid() && fresh(Nodes() - old(Nodes()))
      ensures ok <==> ParseSet(s).Accepted?
      ensures Values(list) == if ok then old(Values(list)) + ParseSet(s).out else [Spec(0, NOT_GIVEN)]
      ensures numranges == old(numranges) + |ParseSet(s).out|
    {
      hide Distinct, Linked, Apart, Chain, Values, Step, Act2, Next, Valid, ParseSet, Run, CharCode, Forbidden;
      ghost var old0, n0 := Values(list), numranges;
      var i := 0;
      var mode, start, stop := INITIAL, 0, 0;
      ghost var out: seq<Spec> := [];
      RunNothing();
      assert s[..0] == "";
      while true
        invariant i <= |s| && 0 <= mode <= 4
        invariant Run(START, s[..i]) == Running(mode, start, stop, out)
        invariant Valid() && Values(list) == old0 + out && numranges == n0 + |out|
        invariant fresh(Nodes() - old(Nodes()))
        decreases |s| - i
      {
        var c := if i < |s| then s[i] else '\0';
        StepInText(s, i, c);
        var fcode;
        fcode, start, stop := LookUp(mode, start, stop, c, out);
        ghost var spec := Spec(start, stop);
        var aborted;
        aborted, start, stop := Act(fcode, start, stop);
        if aborted {
          return false;
        }
        if Act2(fcode) == SR {
          out := out + [spec];
        }
        if CharCode(c) == NULL {
          return true;
        }
        mode := Next(fcode);
        i := i + 1;
      }
    }

    /** `range_parse`: without the prefix nothing changes; on success the specs of the set are
        appended to the list; an invalid set leaves the single error node. */
    method Parse(str: string) returns (ok: bool)
      requires Valid() && '\0' !in str
      modifies this, Nodes()
      ensures Valid() && fresh(Nodes() - old(Nodes()))
      ensures !BytesPrefix(str) ==> !ok && list == old(list) && Values(list) == old(Values(list))
      ensures BytesPrefix(str) ==>
                var m := ParseSet(str[6..]);
                && (ok <==> m.Accepted?)
                && Values(list) == (if ok then old(Values(list)) + m.out else [Spec(0, NOT_GIVEN)])
                && numranges == old(numranges) + |m.out|
    {
      if !BytesPrefix(str) {
        return false;
      }
      ok := ParseSpecs(str[6..]);
    }

    static lemma RunNothing()
      ensures Run(START, "") == Running(INITIAL, 0, 0, [])
    {
    }

    /** What one more character, or the end, does to the run over `s`. */
    static lemma StepInText(s: string, i: nat, c: char)
      requires i <= |s| && c == (if i < |s| then s[i] else '\0') && '\0' !in s
      ensures i < |s| ==> c != '\0' && Run(START, s[..i + 1]) == Step(Run(START, s[..i]), c)
      ensures i == |s| ==> ParseSet(s) == Step(Run(START, s[..i]), c)
      ensures Step(Run(START, s[..i]), c).Rejected? ==>
                ParseSet(s).Rejected? && ParseSet(s).out == Step(Run(START, s[..i]), c).out
    {
      assert s[..|s|] == s;
      if i < |s| {
        assert s[..i + 1][..i] == s[..i];
        if Step(Run(START, s[..i]), c).Rejected? {
          assert s == s[..i + 1] + s[i + 1..];
          RunConcat(START, s[..i + 1], s[i + 1..]);
          RejectedStays(Run(START, s[..i + 1]), s[i + 1..]);
        }
      }
    }
  }
}
