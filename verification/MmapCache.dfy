/** The cache of mapped files (src/mmap_cache.c): linear probing with reference counts, driven
    by the requests that hold its entries. */
module MmapCache {
  import opened Commons

  const SIZE := 256
  const USE_MAX := 128

  /** `struct mmap_entry`; `address` is that of the mapping. */
  datatype Entry = Entry(dev: int, ino: nat, len: int, address: int, useCount: nat)

  /** What identifies a file: `st_dev`, `st_ino`, `st_size`. */
  datatype Key = Key(dev: int, ino: nat, len: int)

  /** What the system answers to `mmap` and then `madvise`. */
  datatype Mapping = MapFailed | AdviseFailed(address: int) | Mapped(address: int)

  type Table = t: seq<Entry> | |t| == SIZE witness seq(SIZE, i => Entry(0, 0, 0, 0, 0))

  function Hash(key: Key): (i: nat)
    ensures i < SIZE
  {
    key.ino % SIZE
  }

  /** `MMAP_LIST_NEXT`, applied `k` times. */
  function Slot(start: nat, k: nat): (i: nat)
    requires start < SIZE && k <= SIZE
    ensures i < SIZE
  {
    if start + k < SIZE then start + k else start + k - SIZE
  }

  /** How many steps it takes from `start` to `i`. */
  function Offset(start: nat, i: nat): (k: nat)
    requires start < SIZE && i < SIZE
    ensures k < SIZE && Slot(start, k) == i
    ensures forall j :: 0 <= j < SIZE && Slot(start, j) == i ==> j == k
  {
    if start <= i then i - start else i + SIZE - start
  }

  predicate Live(t: Table, i: nat)
    requires i < SIZE
  {
    t[i].useCount > 0
  }

  predicate Holds(t: Table, i: nat, key: Key)
    requires i < SIZE
  {
    Live(t, i) && t[i].dev == key.dev && t[i].ino == key.ino && t[i].len == key.len
  }

  /** The probe from the `k`-th slot on: the offset of the first slot that is free or holds the
      key, or 256 when the loop comes back to its start. */
  function Probe(t: Table, key: Key, k: nat): (n: nat)
    requires k <= SIZE
    ensures k <= n <= SIZE
    ensures forall j :: k <= j < n ==> Live(t, Slot(Hash(key), j)) && !Holds(t, Slot(Hash(key), j), key)
    ensures n < SIZE ==> !Live(t, Slot(Hash(key), n)) || Holds(t, Slot(Hash(key), n), key)
    decreases SIZE - k
  {
    if k == SIZE || !Live(t, Slot(Hash(key), k)) || Holds(t, Slot(Hash(key), k), key) then k
    else Probe(t, key, k + 1)
  }

  lemma ProbeStep(t: Table, key: Key, k: nat)
    requires k <= SIZE
    ensures Probe(t, key, k)
         == if k == SIZE || !Live(t, Slot(Hash(key), k)) || Holds(t, Slot(Hash(key), k), key) then k
            else Probe(t, key, k + 1)
  {
  }

  /** A table, `mmap_list_entries_used`, and the addresses mapped and unmapped so far. */
  datatype Cache = Cache(table: Table, used: int, mapped: seq<int>, unmapped: seq<int>)

  /** `find_mmap`: the new cache and the slot returned. */
  function Find(c: Cache, key: Key, m: Mapping): (r: (Cache, Option<nat>))
    ensures r.1.Some? ==> r.1.value < SIZE
  {
    var n := Probe(c.table, key, 0);
    if n == SIZE then (c, None)
    else
      var i := Slot(Hash(key), n);
      if Live(c.table, i) then
        (c.(table := c.table[i := c.table[i].(useCount := c.table[i].useCount + 1)]), Some(i))
      else if c.used > USE_MAX then (c, None)
      else match m
        case MapFailed => (c, None)
        case AdviseFailed(a) => (c.(mapped := c.mapped + [a], unmapped := c.unmapped + [a]), None)
        case Mapped(a) =>
          (Cache(c.table[i := Entry(key.dev, key.ino, key.len, a, 1)], c.used + 1, c.mapped + [a], c.unmapped), Some(i))
  }

  /** On the probe path a free slot comes before any that holds the file. */
  predicate FreeFirst(t: Table, key: Key) {
    exists n {:trigger Slot(Hash(key), n)} :: 0 <= n < SIZE && !Live(t, Slot(Hash(key), n))
      && forall k :: 0 <= k < n ==> Live(t, Slot(Hash(key), k)) && !Holds(t, Slot(Hash(key), k), key)
  }

  /** What a lookup returns and changes. A slot that is returned holds the file, with one more user than
      before; it is the first on the probe path that did hold it or was free, and no other slot
      changes. There is none exactly when no slot holds the file or is free, or the first of these is free but
      129 are in use or the file cannot be mapped; then the table and its counter are as before. */
  lemma FindOutcome(c: Cache, key: Key, m: Mapping)
    ensures var (c', r) := Find(c, key, m);
            if r.None? then
              && c'.table == c.table && c'.used == c.used
              && ((forall k :: 0 <= k < SIZE ==> Live(c.table, Slot(Hash(key), k)) && !Holds(c.table, Slot(Hash(key), k), key))
                  || ((c.used > 128 || !m.Mapped?) && FreeFirst(c.table, key)))
              && ((c'.mapped == c.mapped && c'.unmapped == c.unmapped)
                  || (m.AdviseFailed? && c'.mapped == c.mapped + [m.address] && c'.unmapped == c.unmapped + [m.address]))
            else
              var i := r.value;
              && Holds(c'.table, i, key) && (forall j :: 0 <= j < SIZE && j != i ==> c'.table[j] == c.table[j])
              && (forall k :: 0 <= k < Offset(Hash(key), i) ==>
                    Live(c.table, Slot(Hash(key), k)) && !Holds(c.table, Slot(Hash(key), k), key))
              && (if Live(c.table, i) then
                    Holds(c.table, i, key) && c'.used == c.used && c'.mapped == c.mapped
                    && c'.table[i] == c.table[i].(useCount := c.table[i].useCount + 1)
                  else
                    m.Mapped? && c.used <= 128 && c'.used == c.used + 1 && c'.mapped == c.mapped + [m.address]
                    && c'.table[i].address == m.address && c'.table[i].useCount == 1)
  {
    var n := Probe(c.table, key, 0);
    assert n < SIZE && !Live(c.table, Slot(Hash(key), n)) ==> FreeFirst(c.table, key);
  }

  /** `release_mmap` on slot `i`. */
  function Release(c: Cache, i: nat): Cache
    requires i < SIZE
  {
    var e := c.table[i];
    if e.useCount == 0 then c
    else
      var c' := c.(table := c.table[i := e.(useCount := e.useCount - 1)]);
      if e.useCount == 1 then c'.(used := c.used - 1, unmapped := c.unmapped + [e.address]) else c'
  }

  class MmapList {
    var list: array<Entry>
    var entriesUsed: int
    ghost var mapped: seq<int>
    ghost var unmapped: seq<int>

    ghost predicate Valid()
      reads this
    {
      list.Length == SIZE
    }

    ghost function Value(): Cache
      requires Valid()
      reads this, list
    {
      Cache(list[..], entriesUsed, mapped, unmapped)
    }

    constructor ()
      ensures Valid() && fresh(list) && entriesUsed == 0 && mapped == unmapped == []
      ensures forall i :: 0 <= i < SIZE ==> list[i].useCount == 0
    {
      list := new Entry[SIZE](i => Entry(0, 0, 0, 0, 0));
      entriesUsed := 0;
      mapped, unmapped := [], [];
    }

    /** `m` is what the system will answer if the file has to be mapped. */
    method FindMmap(key: Key, m: Mapping) returns (r: Option<nat>)
      requires Valid()
      modifies this`entriesUsed, this`mapped, this`unmapped, list
      ensures Valid() && (Value(), r) == Find(old(Value()), key, m)
    {
      hide Probe;
      ghost var t: Table := list[..];
      var start := key.ino % SIZE;
      var i := start;
      ghost var k := 0;
      while list[i].useCount != 0
        invariant k < SIZE && i == Slot(start, k) && Value() == old(Value())
        invariant Probe(t, key, k) == Probe(t, key, 0)
        decreases SIZE - k
      {
        ProbeStep(t, key, k);
        assert t[i] == list[i];
        if list[i].dev == key.dev && list[i].ino == key.ino && list[i].len == key.len {
          list[i] := list[i].(useCount := list[i].useCount + 1);
          return Some(i);
        }
        i := (i + 1) % SIZE;
        k := k + 1;
        if i == start {
          assert k == SIZE;
          ProbeStep(t, key, SIZE);
          return None;
        }
      }
      ProbeStep(t, key, k);
      if entriesUsed > USE_MAX {
        return None;
      }
      match m
      case MapFailed =>
        return None;
      case AdviseFailed(a) =>
        mapped, unmapped := mapped + [a], unmapped + [a];
        return None;
      case Mapped(a) =>
        mapped := mapped + [a];
        entriesUsed := entriesUsed + 1;
        list[i] := Entry(key.dev, key.ino, key.len, a, 1);
        return Some(i);
    }

    method ReleaseMmap(i: nat)
      requires Valid() && i < SIZE
      modifies this`entriesUsed, this`unmapped, list
      ensures Valid() && Value() == Release(old(Value()), i)
    {
      if list[i].useCount == 0 {
        return;
      }
      list[i] := list[i].(useCount := list[i].useCount - 1);
      if list[i].useCount == 0 {
        unmapped := unmapped + [list[i].address];
        entriesUsed := entriesUsed - 1;
      }
    }
  }

  // ----- Runs ---------------------------------------------------------------------

  /** The cache and the requests that hold an entry, by slot. */
  datatype Server = Server(cache: Cache, holders: map<int, nat>)

  /** A request asks for a file, or is freed. */
  datatype Event = Open(req: int, key: Key, m: Mapping) | Close(req: int)

  function Step(s: Server, e: Event): (r: Server)
    requires Sane(s)
    ensures Sane(r)
  {
    match e
    case Open(req, key, m) =>
      var (c, r) := Find(s.cache, key, m);
      Server(c, if r.Some? then s.holders[req := r.value] else s.holders)
    case Close(req) =>
      if req in s.holders then Server(Release(s.cache, s.holders[req]), s.holders - {req}) else s
  }

  predicate Sane(s: Server) { forall r <- s.holders :: s.holders[r] < SIZE }

  /** A request opens at most one file, and the system never maps a file over a live mapping. */
  ghost predicate Enabled(s: Server, e: Event) {
    e.Open? ==> e.req !in s.holders && (!e.m.MapFailed? ==> e.m.address !in LiveAddresses(s.cache.table, SIZE))
  }

  function CountLive(t: Table, k: nat): (n: nat)
    requires k <= SIZE
    ensures n <= k
  {
    if k == 0 then 0 else CountLive(t, k - 1) + if Live(t, k - 1) then 1 else 0
  }

  /** The addresses a slot keeps mapped: its own, if it is in use. */
  function Keeps(e: Entry): (r: multiset<int>)
    ensures |r| == if e.useCount > 0 then 1 else 0
  {
    if e.useCount > 0 then multiset{e.address} else multiset{}
  }

  function LiveAddresses(t: Table, k: nat): multiset<int>
    requires k <= SIZE
  {
    if k == 0 then multiset{} else LiveAddresses(t, k - 1) + Keeps(t[k - 1])
  }

  function HoldersOf(h: map<int, nat>, i: nat): set<int> { set r | r in h && h[r] == i }

  /** The invariant: the counter counts the live slots, at most 129; each use count is the number
      of holders; and every address mapped so far has been unmapped once or is in one live slot. */
  ghost predicate Inv(s: Server) {
    && Sane(s)
    && s.cache.used == CountLive(s.cache.table, SIZE) <= 129
    && (forall i :: 0 <= i < SIZE ==> s.cache.table[i].useCount == |HoldersOf(s.holders, i)|)
    && Balanced(s.cache)
  }

  lemma BalancedOf(s: Server)
    requires Inv(s)
    ensures Balanced(s.cache)
  {
  }

  /** Maps and unmaps balance but for the live slots, no two of which share an address. */
  ghost predicate Balanced(c: Cache) {
    && multiset(c.mapped) == multiset(c.unmapped) + LiveAddresses(c.table, SIZE)
    && (forall a :: LiveAddresses(c.table, SIZE)[a] <= 1)
  }

  lemma {:induction false} CountAllLive(t: Table, k: nat)
    requires k <= SIZE && forall i :: 0 <= i < k ==> Live(t, i)
    ensures CountLive(t, k) == k
  {
    if k > 0 {
      CountAllLive(t, k - 1);
    }
  }

  // What replacing slot `i` does to the two sums over the table.

  lemma {:induction false} Untouched(t: Table, i: nat, e: Entry, k: nat)
    requires k <= i < SIZE
    ensures CountLive(t[i := e], k) == CountLive(t, k) && LiveAddresses(t[i := e], k) == LiveAddresses(t, k)
  {
    if k > 0 {
      Untouched(t, i, e, k - 1);
    }
  }

  lemma LastSlot(t: Table, k: nat)
    requires 0 < k <= SIZE
    ensures CountLive(t, k) == CountLive(t, k - 1) + |Keeps(t[k - 1])|
    ensures LiveAddresses(t, k) == LiveAddresses(t, k - 1) + Keeps(t[k - 1])
  {
  }

  lemma {:induction false} Replaced(t: Table, i: nat, e: Entry, k: nat)
    requires i < k <= SIZE
    ensures CountLive(t[i := e], k) - |Keeps(e)| == CountLive(t, k) - |Keeps(t[i])|
    ensures LiveAddresses(t[i := e], k) + Keeps(t[i]) == LiveAddresses(t, k) + Keeps(e)
  {
    hide Keeps, CountLive, LiveAddresses;
    var t' := t[i := e];
    LastSlot(t, k);
    LastSlot(t', k);
    if k - 1 == i {
      Untouched(t, i, e, i);
      assert LiveAddresses(t, i) + Keeps(e) + Keeps(t[i]) == LiveAddresses(t, i) + Keeps(t[i]) + Keeps(e);
    } else {
      Replaced(t, i, e, k - 1);
      var x := Keeps(t[k - 1]);
      assert t'[k - 1] == t[k - 1];
      assert LiveAddresses(t', k - 1) + x + Keeps(t[i]) == (LiveAddresses(t', k - 1) + Keeps(t[i])) + x;
      assert LiveAddresses(t, k - 1) + x + Keeps(e) == (LiveAddresses(t, k - 1) + Keeps(e)) + x;
    }
  }

  lemma Cancel(x: multiset<int>, y: multiset<int>, z: multiset<int>)
    requires x + z == y + z
    ensures x == y
  {
    forall a
      ensures x[a] == y[a]
    {
      assert (x + z)[a] == (y + z)[a];
    }
  }

  lemma BalancedReplaced(c: Cache, i: nat, e: Entry, used: int, mapped: seq<int>, unmapped: seq<int>)
    requires i < SIZE && Balanced(c)
    requires Keeps(c.table[i]) + multiset(mapped) == multiset(unmapped) + Keeps(e)
    requires Keeps(e) in {Keeps(c.table[i]), multiset{}} || e.address !in LiveAddresses(c.table, SIZE)
    ensures Balanced(Cache(c.table[i := e], used, c.mapped + mapped, c.unmapped + unmapped))
  {
    hide LiveAddresses;
    Replaced(c.table, i, e, SIZE);
    var l, l' := LiveAddresses(c.table, SIZE), LiveAddresses(c.table[i := e], SIZE);
    var k, k' := Keeps(c.table[i]), Keeps(e);
    var m, u := multiset(mapped), multiset(unmapped);
    assert multiset(c.mapped + mapped) == multiset(c.mapped) + m;
    assert multiset(c.unmapped + unmapped) == multiset(c.unmapped) + u;
    assert (multiset(c.mapped) + m) + k == multiset(c.unmapped) + l + (u + k');
    assert (multiset(c.unmapped) + u + l') + k == multiset(c.unmapped) + u + (l + k');
    Cancel(multiset(c.mapped) + m, multiset(c.unmapped) + u + l', k);
    forall a
      ensures l'[a] <= 1
    {
      assert (l' + k)[a] == (l + k')[a];
    }
  }

  lemma AllLiveWhenFull(t: Table, key: Key)
    requires Probe(t, key, 0) == SIZE
    ensures CountLive(t, SIZE) == SIZE
  {
    forall i | 0 <= i < SIZE
      ensures Live(t, i)
    {
      assert Slot(Hash(key), Offset(Hash(key), i)) == i;
    }
    CountAllLive(t, SIZE);
  }

  /** The probe always ends at a hit or a free slot: the wrap-around return is unreachable. */
  lemma NeverFull(s: Server, key: Key)
    requires Inv(s)
    ensures Probe(s.cache.table, key, 0) < SIZE
  {
    hide Probe, CountLive;
    if Probe(s.cache.table, key, 0) == SIZE {
      AllLiveWhenFull(s.cache.table, key);
    }
  }

  lemma OneHolderMore(h: map<int, nat>, req: int, i: nat, j: nat)
    requires req !in h
    ensures |HoldersOf(h[req := i], j)| == |HoldersOf(h, j)| + if j == i then 1 else 0
  {
    assert req !in HoldersOf(h, j);
    assert HoldersOf(h[req := i], j) == if j == i then HoldersOf(h, j) + {req} else HoldersOf(h, j);
  }

  lemma HolderAdded(h: map<int, nat>, req: int, i: nat)
    requires req !in h
    ensures forall j :: |HoldersOf(h[req := i], j)| == |HoldersOf(h, j)| + if j == i then 1 else 0
  {
    forall j
      ensures |HoldersOf(h[req := i], j)| == |HoldersOf(h, j)| + if j == i then 1 else 0
    {
      OneHolderMore(h, req, i, j);
    }
  }

  lemma HolderRemoved(h: map<int, nat>, req: int)
    requires req in h
    ensures forall j :: |HoldersOf(h - {req}, j)| == |HoldersOf(h, j)| - if j == h[req] then 1 else 0
  {
    forall j
      ensures |HoldersOf(h - {req}, j)| == |HoldersOf(h, j)| - if j == h[req] then 1 else 0
    {
      assert HoldersOf(h - {req}, j) == HoldersOf(h, j) - if j == h[req] then {req} else {};
    }
  }

  /** Finding keeps the counter and the ledger right. */
  lemma FindBalanced(c: Cache, key: Key, m: Mapping)
    requires Probe(c.table, key, 0) < SIZE
    requires Balanced(c) && c.used == CountLive(c.table, SIZE) <= USE_MAX + 1
    requires !m.MapFailed? ==> m.address !in LiveAddresses(c.table, SIZE)
    ensures var c' := Find(c, key, m).0; Balanced(c') && c'.used == CountLive(c'.table, SIZE) <= USE_MAX + 1
  {
    hide CountLive, LiveAddresses, Balanced, Find, Keeps;
    var c' := Find(c, key, m).0;
    var i := Slot(Hash(key), Probe(c.table, key, 0));
    var e := c'.table[i];
    var mapped, unmapped := FindChanges(c, key, m);
    BalancedReplaced(c, i, e, c'.used, mapped, unmapped);
    Replaced(c.table, i, e, SIZE);
  }

  /** The slot at which the probe ends, before and after, and the calls of `mmap` and `munmap`. */
  lemma FindChanges(c: Cache, key: Key, m: Mapping) returns (mapped: seq<int>, unmapped: seq<int>)
    requires Probe(c.table, key, 0) < SIZE
    ensures var c', i := Find(c, key, m).0, Slot(Hash(key), Probe(c.table, key, 0));
            var before, e := c.table[i], c'.table[i];
            && c' == Cache(c.table[i := e], c'.used, c.mapped + mapped, c.unmapped + unmapped)
            && Keeps(before) + multiset(mapped) == multiset(unmapped) + Keeps(e)
            && c'.used - c.used == |Keeps(e)| - |Keeps(before)| && (c'.used > c.used ==> c.used <= USE_MAX)
            && (Keeps(e) in {Keeps(before), multiset{}} || (!m.MapFailed? && e.address == m.address))
  {
    hide Probe, Hash;
    var c' := Find(c, key, m).0;
    mapped, unmapped := c'.mapped[|c.mapped|..], c'.unmapped[|c.unmapped|..];
    var i := Slot(Hash(key), Probe(c.table, key, 0));
    assert c.table[i := c'.table[i]] == c'.table;
  }

  lemma OpenKeepsInv(s: Server, req: int, key: Key, m: Mapping)
    requires Inv(s) && Enabled(s, Open(req, key, m))
    ensures Inv(Step(s, Open(req, key, m)))
  {
    hide Probe, CountLive, HoldersOf, Balanced;
    BalancedOf(s);
    NeverFull(s, key);
    FindBalanced(s.cache, key, m);
    var (c', r) := Find(s.cache, key, m);
    if r.Some? {
      HolderAdded(s.holders, req, r.value);
    }
  }

  lemma CloseKeepsInv(s: Server, req: int)
    requires Inv(s)
    ensures Inv(Step(s, Close(req)))
  {
    hide CountLive, LiveAddresses;
    if req in s.holders {
      var i := s.holders[req];
      HolderRemoved(s.holders, req);
      assert req in HoldersOf(s.holders, i);
      var c, c' := s.cache, Release(s.cache, i);
      var e := c'.table[i];
      var unmapped := c'.unmapped[|c.unmapped|..];
      assert c'.unmapped == c.unmapped + unmapped && c.mapped + [] == c.mapped;
      BalancedReplaced(c, i, e, c'.used, [], unmapped);
      Replaced(c.table, i, e, SIZE);
    }
  }

  lemma StepKeepsInv(s: Server, e: Event)
    requires Inv(s) && Enabled(s, e)
    ensures Inv(Step(s, e))
  {
    hide Inv;
    if e.Open? {
      OpenKeepsInv(s, e.req, e.key, e.m);
    } else {
      CloseKeepsInv(s, e.req);
    }
  }

  /** Every event sequence the environment allows from state `s`. */
  ghost predicate Allowed(s: Server, events: seq<Event>)
    requires Sane(s)
    decreases |events|
  {
    events == [] || (Enabled(s, events[0]) && Allowed(Step(s, events[0]), events[1..]))
  }

  function Run(s: Server, events: seq<Event>): Server
    requires Sane(s) && Allowed(s, events)
    decreases |events|
  {
    if events == [] then s else Run(Step(s, events[0]), events[1..])
  }

  const EMPTY := Server(Cache(seq(SIZE, i => Entry(0, 0, 0, 0, 0)), 0, [], []), map[])

  lemma {:induction false} EmptyTable(k: nat)
    requires k <= SIZE
    ensures CountLive(EMPTY.cache.table, k) == 0 && LiveAddresses(EMPTY.cache.table, k) == multiset{}
  {
    if k > 0 {
      EmptyTable(k - 1);
    }
  }

  lemma {:induction false} RunKeepsInv(s: Server, events: seq<Event>)
    requires Inv(s) && Allowed(s, events)
    ensures Inv(Run(s, events))
    decreases |events|
  {
    if events != [] {
      StepKeepsInv(s, events[0]);
      RunKeepsInv(Step(s, events[0]), events[1..]);
    }
  }

  /** Over every run: the counter is the number of live slots and at most 129, use counts are
      numbers of holders, and each address has been unmapped exactly as often as it was mapped,
      less the one live slot that still has it. */
  lemma EveryRun(events: seq<Event>)
    requires Allowed(EMPTY, events)
    ensures Inv(Run(EMPTY, events))
  {
    EmptyTable(SIZE);
    RunKeepsInv(EMPTY, events);
  }

  /** As long as a request holds a slot, the slot stays in use and keeps its file and mapping. */
  lemma HeldSlotKept(s: Server, e: Event, req: int)
    requires Inv(s) && Enabled(s, e) && req in s.holders && req in Step(s, e).holders
    ensures var i := s.holders[req];
            var before, after := s.cache.table[i], Step(s, e).cache.table[i];
            Step(s, e).holders[req] == i && after == before.(useCount := after.useCount) && after.useCount > 0
  {
    assert req in HoldersOf(s.holders, s.holders[req]);
    if e.Close? && e.req in s.holders && e.req != req && s.holders[e.req] == s.holders[req] {
      assert {req, e.req} <= HoldersOf(s.holders, s.holders[req]);
      assert |HoldersOf(s.holders, s.holders[req]) - {req}| > 0 by {
        assert e.req in HoldersOf(s.holders, s.holders[req]) - {req};
      }
    }
  }

  /** The request holds its slot all along a run. */
  ghost predicate Holding(s: Server, events: seq<Event>, req: int)
    requires Sane(s)
    decreases |events|
  {
    req in s.holders && (events != [] ==> Holding(Step(s, events[0]), events[1..], req))
  }

  /** Over whole runs: a slot keeps its file, length and mapping as long as one request holds it,
      whoever else opens or closes files meanwhile. */
  lemma {:induction false} HeldAllAlong(s: Server, events: seq<Event>, req: int)
    requires Inv(s) && Allowed(s, events) && Holding(s, events, req)
    ensures var i, after := s.holders[req], Run(s, events);
            && req in after.holders && after.holders[req] == i
            && after.cache.table[i] == s.cache.table[i].(useCount := after.cache.table[i].useCount)
            && after.cache.table[i].useCount > 0
    decreases |events|
  {
    hide CountLive, Balanced, Step;
    if events == [] {
      HeldIsUsed(s, req);
    } else {
      var e := events[0];
      StepKeepsInv(s, e);
      HeldSlotKept(s, e, req);
      HeldAllAlong(Step(s, e), events[1..], req);
    }
  }

  lemma HeldIsUsed(s: Server, req: int)
    requires Inv(s) && req in s.holders
    ensures s.cache.table[s.holders[req]].useCount > 0
  {
    assert req in HoldersOf(s.holders, s.holders[req]);
  }

  // ----- One entry per file -------------------------------------------------------

  function KeyOf(e: Entry): Key { Key(e.dev, e.ino, e.len) }

  /** How far a live slot is from the slot its file hashes to. */
  function Distance(t: Table, i: nat): (k: nat)
    requires i < SIZE
    ensures k < SIZE
  {
    Offset(Hash(KeyOf(t[i])), i)
  }

  /** No free slot lies on the probe path to slot `i`. */
  ghost predicate Reachable(t: Table, i: nat)
    requires i < SIZE
  {
    forall k :: 0 <= k < Distance(t, i) ==> Live(t, Slot(Hash(KeyOf(t[i])), k))
  }

  ghost predicate Packed(t: Table) { forall i :: 0 <= i < SIZE && Live(t, i) ==> Reachable(t, i) }

  /** No file has two live entries. */
  ghost predicate OnePerFile(t: Table) {
    forall i, j :: 0 <= i < SIZE && 0 <= j < SIZE && Live(t, i) && Live(t, j) && KeyOf(t[i]) == KeyOf(t[j]) ==> i == j
  }

  /** A file that has an entry with no gap before it is found there. */
  lemma ReachableIsFound(t: Table, key: Key, j: nat)
    requires j < SIZE && Holds(t, j, key) && OnePerFile(t)
    ensures Reachable(t, j) <==> Slot(Hash(key), Probe(t, key, 0)) == j && Probe(t, key, 0) < SIZE
  {
    var n, d := Probe(t, key, 0), Distance(t, j);
    assert KeyOf(t[j]) == key && Slot(Hash(key), d) == j;
    var i := Slot(Hash(key), n);
    assert Holds(t, i, key) ==> KeyOf(t[i]) == KeyOf(t[j]);
    assert n == d || !Live(t, i);
  }

  /** Looking up a file that is mapped makes a second entry exactly when a free slot lies on the
      probe path before its entry and the table may still grow. */
  lemma SecondEntryExactly(c: Cache, key: Key, a: int, j: nat)
    requires j < SIZE && Holds(c.table, j, key) && OnePerFile(c.table)
    ensures OnePerFile(Find(c, key, Mapped(a)).0.table) <==> Reachable(c.table, j) || c.used > USE_MAX
  {
    hide Probe;
    var t := c.table;
    var t', n := Find(c, key, Mapped(a)).0.table, Probe(t, key, 0);
    ReachableIsFound(t, key, j);
    if n < SIZE {
      var i := Slot(Hash(key), n);
      ProbeStep(t, key, n);
      ProbeEnds(t, key);
      if Live(t, i) {
        SameKeys(t, i, t[i].(useCount := t[i].useCount + 1));
      } else if c.used <= USE_MAX {
        assert Live(t', i) && Live(t', j) && KeyOf(t'[i]) == KeyOf(t'[j]) == key && i != j;
      }
    }
  }

  lemma ProbeEnds(t: Table, key: Key)
    ensures var n := Probe(t, key, 0); n < SIZE ==>
              var i := Slot(Hash(key), n);
              (Live(t, i) ==> Holds(t, i, key)) && forall k :: 0 <= k < n ==> Live(t, Slot(Hash(key), k))
  {
  }

  /** Changing only a positive use count changes no key and no gap. */
  lemma SameKeys(t: Table, i: nat, e: Entry)
    requires i < SIZE && Live(t, i) && e == t[i].(useCount := e.useCount) && e.useCount > 0
    ensures OnePerFile(t[i := e]) <==> OnePerFile(t)
    ensures Packed(t) ==> Packed(t[i := e])
  {
    var t' := t[i := e];
    assert forall k :: 0 <= k < SIZE ==> KeyOf(t'[k]) == KeyOf(t[k]) && (Live(t', k) <==> Live(t, k));
    if Packed(t) {
      forall k | 0 <= k < SIZE && Live(t', k)
        ensures Reachable(t', k)
      {
        assert Reachable(t, k);
      }
    }
  }

  /** Filling the free slot where the probe ended leaves no gap and no second entry. */
  lemma FilledKeepsPacked(t: Table, key: Key, a: int)
    requires Packed(t) && OnePerFile(t)
    requires Probe(t, key, 0) < SIZE && !Live(t, Slot(Hash(key), Probe(t, key, 0)))
    ensures var t' := t[Slot(Hash(key), Probe(t, key, 0)) := Entry(key.dev, key.ino, key.len, a, 1)];
            Packed(t') && OnePerFile(t')
  {
    var n := Probe(t, key, 0);
    var i := Slot(Hash(key), n);
    var t' := t[i := Entry(key.dev, key.ino, key.len, a, 1)];
    ProbeEnds(t, key);
    assert KeyOf(t'[i]) == key;
    forall j | 0 <= j < SIZE && Live(t', j)
      ensures Reachable(t', j)
    {
      if j == i {
        assert Distance(t', i) == n;
      } else {
        assert Reachable(t, j) && t'[j] == t[j];
      }
    }
    forall j | 0 <= j < SIZE && j != i && Live(t', j)
      ensures KeyOf(t'[j]) != key
    {
      if KeyOf(t[j]) == key {
        assert Reachable(t, j);
        ReachableIsFound(t, key, j);
      }
    }
  }

  lemma OpenKeepsPacked(c: Cache, key: Key, m: Mapping)
    requires Packed(c.table) && OnePerFile(c.table)
    ensures var t := Find(c, key, m).0.table; Packed(t) && OnePerFile(t)
  {
    hide Probe, Packed, OnePerFile;
    var n := Probe(c.table, key, 0);
    if n < SIZE {
      var i := Slot(Hash(key), n);
      if Live(c.table, i) {
        SameKeys(c.table, i, c.table[i].(useCount := c.table[i].useCount + 1));
      } else if c.used <= USE_MAX && m.Mapped? {
        FilledKeepsPacked(c.table, key, m.address);
      }
    }
  }

  /** No event of the run takes a use count to zero. */
  ghost predicate NeverFrees(s: Server, events: seq<Event>)
    requires Sane(s)
    decreases |events|
  {
    events == [] ||
    (var e := events[0];
     && (e.Close? && e.req in s.holders ==> s.cache.table[s.holders[e.req]].useCount != 1)
     && NeverFrees(Step(s, e), events[1..]))
  }

  lemma {:induction false} OnePerFileFrom(s: Server, events: seq<Event>)
    requires Sane(s) && Allowed(s, events) && NeverFrees(s, events)
    requires Packed(s.cache.table) && OnePerFile(s.cache.table)
    ensures OnePerFile(Run(s, events).cache.table)
    decreases |events|
  {
    hide Packed, OnePerFile, Probe;
    if events != [] {
      var e := events[0];
      if e.Open? {
        OpenKeepsPacked(s.cache, e.key, e.m);
      } else if e.req in s.holders {
        var i := s.holders[e.req];
        if Live(s.cache.table, i) {
          SameKeys(s.cache.table, i, s.cache.table[i].(useCount := s.cache.table[i].useCount - 1));
        }
      }
      OnePerFileFrom(Step(s, e), events[1..]);
    }
  }

  /** In runs that free no slot, no file ever has two live entries. */
  lemma OnePerFileWithoutFreeing(events: seq<Event>)
    requires Allowed(EMPTY, events) && NeverFrees(EMPTY, events)
    ensures OnePerFile(Run(EMPTY, events).cache.table)
  {
    OnePerFileFrom(EMPTY, events);
  }

  const FILE_A := Key(1, 0, 10)
  const FILE_B := Key(1, 256, 10)

  const FREEING := [Open(1, FILE_A, Mapped(100)), Open(2, FILE_B, Mapped(200)), Close(1)]

  const OPENED_A := Step(EMPTY, FREEING[0])
  const OPENED_B := Step(OPENED_A, FREEING[1])
  const CLOSED_A := Step(OPENED_B, FREEING[2])

  lemma FirstOpened()
    ensures OPENED_A == Server(Cache(EMPTY.cache.table[0 := Entry(1, 0, 10, 100, 1)], 1, [100], []), map[1 := 0])
    ensures LiveAddresses(OPENED_A.cache.table, SIZE) == multiset{100}
  {
    hide LiveAddresses, Probe, CountLive;
    EmptyTable(SIZE);
    ProbeStep(EMPTY.cache.table, FILE_A, 0);
    Replaced(EMPTY.cache.table, 0, Entry(1, 0, 10, 100, 1), SIZE);
    Cancel(LiveAddresses(OPENED_A.cache.table, SIZE), multiset{100}, multiset{});
  }

  lemma SecondOpened()
    ensures OPENED_B == Server(Cache(OPENED_A.cache.table[1 := Entry(1, 256, 10, 200, 1)], 2, [100, 200], []), map[1 := 0, 2 := 1])
    ensures LiveAddresses(OPENED_B.cache.table, SIZE) == multiset{100, 200}
  {
    hide LiveAddresses, Probe, CountLive, OPENED_A;
    FirstOpened();
    var t := OPENED_A.cache.table;
    ProbeStep(t, FILE_B, 0);
    ProbeStep(t, FILE_B, 1);
    Replaced(t, 1, Entry(1, 256, 10, 200, 1), SIZE);
    Cancel(LiveAddresses(OPENED_B.cache.table, SIZE), multiset{100, 200}, multiset{});
  }

  /** Both files hash to slot 0, and the first is released while the second is held. */
  lemma FreedInFront()
    ensures CLOSED_A.cache.table == OPENED_B.cache.table[0 := Entry(1, 0, 10, 100, 0)]
    ensures CLOSED_A.cache.used == 1 && CLOSED_A.holders == map[2 := 1]
    ensures CLOSED_A.cache.table[1] == Entry(1, 256, 10, 200, 1)
    ensures LiveAddresses(CLOSED_A.cache.table, SIZE) == multiset{200}
  {
    hide LiveAddresses, Probe, CountLive, OPENED_A, OPENED_B;
    FirstOpened();
    SecondOpened();
    var t := OPENED_B.cache.table;
    Replaced(t, 0, Entry(1, 0, 10, 100, 0), SIZE);
    assert CLOSED_A.holders == map[2 := 1];
    Cancel(LiveAddresses(CLOSED_A.cache.table, SIZE), multiset{200}, multiset{100});
  }

  lemma FreeingAllowed()
    ensures Allowed(EMPTY, FREEING) && Run(EMPTY, FREEING) == CLOSED_A
  {
    hide LiveAddresses, Probe, CountLive, Step, Allowed, Run;
    EmptyTable(SIZE);
    FirstOpened();
    SecondOpened();
    var a, b, c := FREEING[0], FREEING[1], FREEING[2];
    NothingMore(CLOSED_A);
    assert FREEING == [a] + ([b] + [c]) && [c] + [] == [c];
    RunCons(OPENED_B, c, []);
    RunCons(OPENED_A, b, [c]);
    RunCons(EMPTY, a, [b] + [c]);
  }

  lemma NothingMore(s: Server)
    requires Sane(s)
    ensures Allowed(s, []) && Run(s, []) == s
  {
  }

  lemma RunCons(s: Server, e: Event, rest: seq<Event>)
    requires Sane(s) && Enabled(s, e) && Allowed(Step(s, e), rest)
    ensures Allowed(s, [e] + rest) && Run(s, [e] + rest) == Run(Step(s, e), rest)
    ensures rest == [] ==> Run(s, [e] + rest) == Step(s, e)
  {
    assert ([e] + rest)[1..] == rest;
  }

  /** After that run it can: the second file is then mapped again in front of its live entry. */
  lemma SecondEntryAfterFreeing()
    ensures Allowed(EMPTY, FREEING)
    ensures var s, e := Run(EMPTY, FREEING), Open(3, FILE_B, Mapped(300));
            Sane(s) && Enabled(s, e) && OnePerFile(s.cache.table) && !OnePerFile(Step(s, e).cache.table)
  {
    hide LiveAddresses, Probe, CountLive, OPENED_A, OPENED_B, CLOSED_A;
    FreeingAllowed();
    FirstOpened();
    SecondOpened();
    FreedInFront();
    var s, e := CLOSED_A, Open(3, FILE_B, Mapped(300));
    ProbeStep(s.cache.table, FILE_B, 0);
    var t := Step(s, e).cache.table;
    assert t == s.cache.table[0 := Entry(1, 256, 10, 300, 1)];
    assert Live(t, 0) && KeyOf(t[0]) == FILE_B;
    assert Live(t, 1) && KeyOf(t[1]) == FILE_B;
  }
}
