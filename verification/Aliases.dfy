/** The alias table (src/alias.c): buckets by a hash of the first path segment, against a plain
    scan of all aliases in the order they were configured. */
module Aliases {
  import opened Commons
  import opened Bytes
  import UriText

  datatype Kind = ALIAS | SCRIPTALIAS | REDIRECT

  datatype Alias = Alias(fakename: seq<Byte>, realname: seq<Byte>, kind: Kind)

  const HASHTABLE_SIZE := 17

  // ----- The hash -----------------------------------------------------------------

  /** `(unsigned int) c` of a signed `char`. */
  function Extended(c: Byte): int { if c >= 128 then c + 0x1_0000_0000 - 256 else c }

  function Wrapped(n: int): int { n % 0x1_0000_0000 }

  /** The loop: bytes from position `i` on are added up to a slash or the end. */
  function SumFrom(hash: int, file: seq<Byte>, i: nat): int
    requires i <= |file|
    decreases |file| - i
  {
    if i == |file| || file[i] == SLASH then hash else SumFrom(Wrapped(hash + Extended(file[i])), file, i + 1)
  }

  function Hash(file: seq<Byte>): (h: nat)
    ensures h < HASHTABLE_SIZE
  {
    if file == [] then 0 else SumFrom(Extended(file[0]), file, 1) % HASHTABLE_SIZE
  }

  method GetAliasHashValue(file: seq<Byte>) returns (h: nat)
    requires 0 !in file
    ensures h == Hash(file)
  {
    if file == [] {
      return 0;
    }
    var hash := Extended(file[0]);
    var i := 1;
    while i < |file| && file[i] != SLASH
      invariant 1 <= i <= |file|
      invariant SumFrom(hash, file, i) == SumFrom(Extended(file[0]), file, 1)
    {
      hash := Wrapped(hash + Extended(file[i]));
      i := i + 1;
    }
    h := hash % HASHTABLE_SIZE;
  }

  /** The sum of a text's `char`s, which are signed. */
  function SignedSum(s: seq<Byte>): int {
    if s == [] then 0 else (if s[0] < 128 then s[0] else s[0] - 256) + SignedSum(s[1..])
  }

  lemma {:induction false} SumIsSigned(hash: int, file: seq<Byte>, i: nat)
    requires i <= |file| && 0 <= hash < 0x1_0000_0000
    ensures SumFrom(hash, file, i) == (hash + SignedSum(UriText.Split(file, i)[0])) % 0x1_0000_0000
    decreases |file| - i
  {
    hide UriText.Split;
    SplitAt(file, i);
    if i < |file| && file[i] != SLASH {
      var rest, c := UriText.Split(file, i + 1)[0], file[i];
      SumIsSigned(Wrapped(hash + Extended(c)), file, i + 1);
      assert ([c] + rest)[1..] == rest;
      Carried(hash, c, SignedSum(rest));
    }
  }

  lemma Carried(hash: int, c: Byte, sum: int)
    ensures (Wrapped(hash + Extended(c)) + sum) % 0x1_0000_0000
         == (hash + ((if c < 128 then c else c - 256) + sum)) % 0x1_0000_0000
  {
    var n := hash + Extended(c);
    var q := n / 0x1_0000_0000;
    assert n == 0x1_0000_0000 * q + Wrapped(n);
    SameModulo(Wrapped(n) + sum, hash + ((if c < 128 then c else c - 256) + sum), q - if c < 128 then 0 else 1);
  }

  lemma SameModulo(a: int, b: int, k: int)
    requires b == a + 0x1_0000_0000 * k
    ensures a % 0x1_0000_0000 == b % 0x1_0000_0000
  {
  }

  /** The hash of a name is the sum, modulo 2^32 and then 17, of its first byte and those up to the next slash. */
  lemma HashExactly(file: seq<Byte>)
    ensures Hash(file) == if file == [] then 0 else SignedSum([file[0]] + UriText.Split(file, 1)[0]) % 0x1_0000_0000 % 17
  {
    hide UriText.Split;
    if file != [] {
      SumIsSigned(Extended(file[0]), file, 1);
      var rest := UriText.Split(file, 1)[0];
      assert ([file[0]] + rest)[1..] == rest;
      Carried(0, file[0], SignedSum(rest));
    }
  }

  // ----- Matching -----------------------------------------------------------------

  /** The condition of `find_alias`: the alias is a prefix of the URI that ends at a segment border. */
  predicate Matches(a: Alias, uri: seq<Byte>) {
    && a.fakename != [] && |a.fakename| <= |uri| && uri[..|a.fakename|] == a.fakename
    && (a.fakename[|a.fakename| - 1] == SLASH || |uri| == |a.fakename| || uri[|a.fakename|] == SLASH)
  }

  /** The segments `fs` begin `us`: all but the last are the same, and so is the last, unless it is empty, as
      behind a final slash. `inside` tells that the first segments are the rests of two equal ones. */
  predicate SegmentsBegin(fs: seq<seq<Byte>>, us: seq<seq<Byte>>, inside: bool)
    requires fs != []
  {
    var n := |fs| - 1;
    && |fs| <= |us| && fs[..n] == us[..n]
    && (fs[n] == us[n] || (fs[n] == [] && !(inside && n == 0)))
  }

  /** From position `p` on, behind equal beginnings. */
  lemma {:induction false} MatchesFrom(f: seq<Byte>, u: seq<Byte>, p: nat, inside: bool)
    requires p <= |f| && p <= |u|
    ensures SegmentsBegin(UriText.Split(f, p), UriText.Split(u, p), inside)
            <==> |f| <= |u| && f[p..] == u[p..|f|]
                 && ((if p < |f| then f[|f| - 1] == 47 else !inside) || |u| == |f| || u[|f|] == 47)
    decreases |f| - p
  {
    hide SegmentsBegin, UriText.Split;
    SplitAt(f, p);
    SplitAt(u, p);
    if p == |f| {
      BeginEmpty(UriText.Split(u, p), inside);
    } else if p == |u| {
      BeginsNot(UriText.Split(f, p), UriText.Split(u, p), inside);
    } else {
      MatchesFrom(f, u, p + 1, f[p] != 47);
      SameFrom(f, u, p);
      if f[p] == 47 && u[p] == 47 {
        BeginNext([], [], UriText.Split(f, p + 1), UriText.Split(u, p + 1), inside);
      } else if f[p] != 47 && u[p] != 47 {
        BeginByte(f[p], u[p], UriText.Split(f, p + 1), UriText.Split(u, p + 1), inside);
      } else {
        BeginsNot(UriText.Split(f, p), UriText.Split(u, p), inside);
      }
    }
  }

  lemma SplitAt(s: seq<Byte>, p: nat)
    requires p <= |s|
    ensures p == |s| ==> UriText.Split(s, p) == [[]]
    ensures p < |s| && s[p] == 47 ==> UriText.Split(s, p) == [[]] + UriText.Split(s, p + 1)
    ensures p < |s| && s[p] != 47 ==>
              var r := UriText.Split(s, p + 1); UriText.Split(s, p) == [[s[p]] + r[0]] + r[1..] && UriText.Split(s, p)[0] != []
    ensures UriText.Split(s, p)[0] == [] <==> p == |s| || s[p] == 47
  {
  }

  lemma BeginEmpty(us: seq<seq<Byte>>, inside: bool)
    requires us != []
    ensures SegmentsBegin([[]], us, inside) <==> us[0] == [] || !inside
  {
  }

  /** Too many segments, or a first one that is empty in one of them only. */
  lemma BeginsNot(fs: seq<seq<Byte>>, us: seq<seq<Byte>>, inside: bool)
    requires fs != [] && us != []
    requires |fs| > |us| || if fs[0] == [] then us[0] != [] && |fs| > 1 else us[0] == []
    ensures !SegmentsBegin(fs, us, inside)
  {
    assert |fs| > 1 && |us| >= |fs| ==> fs[..|fs| - 1][0] == fs[0] && us[..|fs| - 1][0] == us[0];
  }

  lemma SameFrom(f: seq<Byte>, u: seq<Byte>, p: nat)
    requires p < |f| && p < |u|
    ensures |f| <= |u| ==> (f[p..] == u[p..|f|] <==> f[p] == u[p] && f[p + 1..] == u[p + 1..|f|])
  {
    if |f| <= |u| {
      assert f[p..] == [f[p]] + f[p + 1..] && u[p..|f|] == [u[p]] + u[p + 1..|f|];
    }
  }

  /** One segment further. */
  lemma BeginNext(a: seq<Byte>, b: seq<Byte>, fs: seq<seq<Byte>>, us: seq<seq<Byte>>, inside: bool)
    requires fs != []
    ensures SegmentsBegin([a] + fs, [b] + us, inside) <==> a == b && SegmentsBegin(fs, us, false)
  {
    var n := |fs| - 1;
    if |fs| <= |us| {
      var x, y := [a] + fs[..n], [b] + us[..n];
      assert ([a] + fs)[..n + 1] == x && ([b] + us)[..n + 1] == y;
      assert x[0] == a && y[0] == b && x[1..] == fs[..n] && y[1..] == us[..n];
    }
  }

  /** One byte further within the first segments. */
  lemma BeginByte(c: Byte, d: Byte, fs: seq<seq<Byte>>, us: seq<seq<Byte>>, inside: bool)
    requires fs != [] && us != []
    ensures SegmentsBegin([[c] + fs[0]] + fs[1..], [[d] + us[0]] + us[1..], inside) <==> c == d && SegmentsBegin(fs, us, true)
  {
    assert [c] + fs[0] == [d] + us[0] <==> c == d && fs[0] == us[0] by {
      assert ([c] + fs[0])[1..] == fs[0] && ([d] + us[0])[1..] == us[0];
    }
    assert [fs[0]] + fs[1..] == fs && [us[0]] + us[1..] == us;
    if |fs| > 1 {
      BeginNext([c] + fs[0], [d] + us[0], fs[1..], us[1..], inside);
      BeginNext(fs[0], us[0], fs[1..], us[1..], true);
    }
  }

  /** What `find_alias` takes for a match, in terms of the segments between slashes: those of the alias begin
      those of the URI, where an alias that ends in a slash leaves the next segment open. */
  lemma MatchesExactly(a: Alias, uri: seq<Byte>)
    ensures Matches(a, uri) <==> a.fakename != [] && SegmentsBegin(UriText.Split(a.fakename, 0), UriText.Split(uri, 0), false)
  {
    hide UriText.Split;
    MatchesFrom(a.fakename, uri, 0, false);
    assert a.fakename[0..] == a.fakename;
  }

  /** The reference: the first match in a list. */
  function FirstMatch(list: seq<Alias>, uri: seq<Byte>): Option<Alias> {
    if list == [] then None
    else
      var r := FirstMatch(list[..|list| - 1], uri);
      if r.Some? then r else if Matches(list[|list| - 1], uri) then Some(list[|list| - 1]) else None
  }

  lemma FirstMatchSnoc(list: seq<Alias>, a: Alias, uri: seq<Byte>)
    ensures FirstMatch(list + [a], uri)
         == if FirstMatch(list, uri).Some? then FirstMatch(list, uri) else if Matches(a, uri) then Some(a) else None
  {
    assert (list + [a])[..|list|] == list;
  }

  /** Nothing before the first match matches. */
  lemma {:induction false} FirstMatchIsFirst(list: seq<Alias>, uri: seq<Byte>)
    ensures match FirstMatch(list, uri)
            case None => forall i :: 0 <= i < |list| ==> !Matches(list[i], uri)
            case Some(a) => exists i :: 0 <= i < |list| && a == list[i] && Matches(a, uri)
                                        && forall j :: 0 <= j < i ==> !Matches(list[j], uri)
  {
    hide Matches;
    if list != [] {
      FirstMatchIsFirst(list[..|list| - 1], uri);
    }
  }

  lemma MatchFound(list: seq<Alias>, i: nat, uri: seq<Byte>)
    requires i < |list| && Matches(list[i], uri)
    ensures FirstMatch(list, uri).Some?
  {
    FirstMatchIsFirst(list, uri);
  }

  // ----- The table ----------------------------------------------------------------

  type Table = t: seq<seq<Alias>> | |t| == HASHTABLE_SIZE witness seq(HASHTABLE_SIZE, i => [])

  /** The test of `add_alias`, which looks at every entry of the bucket but the last. */
  predicate SeenBeforeLast(bucket: seq<Alias>, fakename: seq<Byte>) {
    exists i :: 0 <= i < |bucket| - 1 && bucket[i].fakename == fakename
  }

  function Added(t: Table, a: Alias): Table {
    var h := Hash(a.fakename);
    if SeenBeforeLast(t[h], a.fakename) then t else t[h := t[h] + [a]]
  }

  /** The table after the given calls of `add_alias`. */
  function TableOf(calls: seq<Alias>): Table {
    if calls == [] then seq(HASHTABLE_SIZE, i => []) else Added(TableOf(calls[..|calls| - 1]), calls[|calls| - 1])
  }

  function Find(t: Table, uri: seq<Byte>): Option<Alias> { FirstMatch(t[Hash(uri)], uri) }

  class AliasTable {
    const buckets: array<seq<Alias>>

    constructor ()
      ensures fresh(buckets) && buckets.Length == HASHTABLE_SIZE && buckets[..] == TableOf([])
    {
      buckets := new seq<Alias>[HASHTABLE_SIZE](i => []);
    }

    /** Empty names end the server before anything is added. */
    method AddAlias(a: Alias)
      requires buckets.Length == HASHTABLE_SIZE && a.fakename != [] && a.realname != [] && 0 !in a.fakename
      modifies buckets
      ensures buckets[..] == Added(old(buckets[..]), a)
    {
      var hash := GetAliasHashValue(a.fakename);
      var i := 0;
      while i < |buckets[hash]| - 1
        invariant 0 <= i && buckets[..] == old(buckets[..])
        invariant forall j :: 0 <= j < i && j < |buckets[hash]| ==> buckets[hash][j].fakename != a.fakename
        decreases |buckets[hash]| - i
      {
        if buckets[hash][i].fakename == a.fakename {
          return;
        }
        i := i + 1;
      }
      buckets[hash] := buckets[hash] + [a];
    }

    method FindAlias(uri: seq<Byte>) returns (r: Option<Alias>)
      requires buckets.Length == HASHTABLE_SIZE && 0 !in uri
      ensures r == Find(buckets[..], uri)
    {
      var hash := GetAliasHashValue(uri);
      var bucket := buckets[hash];
      var i := 0;
      while i < |bucket|
        invariant i <= |bucket| && FirstMatch(bucket[..i], uri) == None
      {
        FirstMatchSnoc(bucket[..i], bucket[i], uri);
        assert bucket[..i + 1] == bucket[..i] + [bucket[i]];
        if Matches(bucket[i], uri) {
          FirstMatchPrefix(bucket, i + 1, uri);
          return Some(bucket[i]);
        }
        i := i + 1;
      }
      assert bucket[..i] == bucket;
      return None;
    }
  }

  lemma {:induction false} FirstMatchPrefix(list: seq<Alias>, k: nat, uri: seq<Byte>)
    requires k <= |list| && FirstMatch(list[..k], uri).Some?
    ensures FirstMatch(list, uri) == FirstMatch(list[..k], uri)
    decreases |list|
  {
    if k < |list| {
      assert list[..|list| - 1][..k] == list[..k];
      FirstMatchPrefix(list[..|list| - 1], k, uri);
    } else {
      assert list[..k] == list;
    }
  }

  // ----- The table agrees with the plain scan ---------------------------------------

  /** A slash, or the end of the URI, stops both sums at the same place. */
  lemma {:induction false} SameSum(hash: int, a: seq<Byte>, uri: seq<Byte>, i: nat)
    requires i <= |a| <= |uri| && uri[..|a|] == a
    requires (exists k :: i <= k < |a| && a[k] == SLASH) || |uri| == |a| || uri[|a|] == SLASH
    ensures SumFrom(hash, a, i) == SumFrom(hash, uri, i)
    decreases |a| - i
  {
    if i < |a| {
      assert uri[..|a|][i] == a[i];
      if a[i] != SLASH {
        SameSum(Wrapped(hash + Extended(a[i])), a, uri, i + 1);
      }
    }
  }

  const ROOT: seq<Byte> := [SLASH]

  /** An alias other than "/" is in the bucket of every URI it matches. */
  lemma MatchHasSameHash(a: Alias, uri: seq<Byte>)
    requires uri != [] && uri[0] == SLASH && Matches(a, uri) && a.fakename != ROOT
    ensures Hash(a.fakename) == Hash(uri)
  {
    var f := a.fakename;
    assert f[0] == uri[..|f|][0] == SLASH;
    assert f[|f| - 1] == SLASH ==> |f| > 1;
    SameSum(Extended(f[0]), f, uri, 1);
  }

  /** The aliases of one bucket, with all duplicates. */
  function WithHash(calls: seq<Alias>, h: nat): seq<Alias> {
    if calls == [] then []
    else
      var a := calls[|calls| - 1];
      var init := WithHash(calls[..|calls| - 1], h);
      if Hash(a.fakename) == h then init + [a] else init
  }

  lemma SameNameMatches(a: Alias, b: Alias, uri: seq<Byte>)
    requires a.fakename == b.fakename
    ensures Matches(a, uri) == Matches(b, uri)
  {
  }

  /** A bucket answers like the list of all aliases with its hash: what `add_alias` drops is
      hidden by an earlier entry, and a duplicate it lets through never comes first. */
  lemma {:induction false} BucketIsWithHash(calls: seq<Alias>, uri: seq<Byte>, h: nat)
    requires h < HASHTABLE_SIZE
    ensures FirstMatch(TableOf(calls)[h], uri) == FirstMatch(WithHash(calls, h), uri)
  {
    hide Matches, FirstMatch, Hash;
    if calls == [] {
      assert TableOf(calls)[h] == WithHash(calls, h);
    } else {
      var init, a := calls[..|calls| - 1], calls[|calls| - 1];
      BucketIsWithHash(init, uri, h);
      var bucket := TableOf(init)[h];
      if Hash(a.fakename) == h {
        FirstMatchSnoc(WithHash(init, h), a, uri);
        if SeenBeforeLast(bucket, a.fakename) {
          var i :| 0 <= i < |bucket| - 1 && bucket[i].fakename == a.fakename;
          SameNameMatches(a, bucket[i], uri);
          if Matches(a, uri) {
            MatchFound(bucket, i, uri);
          }
        } else {
          FirstMatchSnoc(bucket, a, uri);
        }
      }
    }
  }

  /** The aliases a URI with hash `h` can reach: all but "/", unless "/" shares the bucket. */
  function Visible(calls: seq<Alias>, h: nat): seq<Alias> {
    if calls == [] then []
    else
      var a := calls[|calls| - 1];
      var init := Visible(calls[..|calls| - 1], h);
      if a.fakename != ROOT || Hash(ROOT) == h then init + [a] else init
  }

  lemma {:induction false} WithHashIsVisible(calls: seq<Alias>, uri: seq<Byte>)
    requires uri != [] && uri[0] == SLASH
    ensures FirstMatch(WithHash(calls, Hash(uri)), uri) == FirstMatch(Visible(calls, Hash(uri)), uri)
  {
    hide Matches, FirstMatch, Hash;
    if calls == [] {
      assert WithHash(calls, Hash(uri)) == Visible(calls, Hash(uri));
    } else {
      var init, a := calls[..|calls| - 1], calls[|calls| - 1];
      WithHashIsVisible(init, uri);
      FirstMatchSnoc(WithHash(init, Hash(uri)), a, uri);
      FirstMatchSnoc(Visible(init, Hash(uri)), a, uri);
      if Matches(a, uri) && a.fakename != ROOT {
        MatchHasSameHash(a, uri);
      }
    }
  }

  lemma {:induction false} RootIsHidden(calls: seq<Alias>, h: nat)
    requires Hash(ROOT) != h
    ensures forall i :: 0 <= i < |Visible(calls, h)| ==> Visible(calls, h)[i].fakename != ROOT
  {
    hide Hash;
    if calls != [] {
      RootIsHidden(calls[..|calls| - 1], h);
    }
  }

  lemma {:induction false} VisibleMisses(calls: seq<Alias>, uri: seq<Byte>)
    ensures var all, seen := FirstMatch(calls, uri), FirstMatch(Visible(calls, Hash(uri)), uri);
            all == seen || (all.Some? && all.value.fakename == ROOT && Hash(ROOT) != Hash(uri))
  {
    hide Matches, FirstMatch, Hash;
    if calls == [] {
      assert Visible(calls, Hash(uri)) == calls;
    } else {
      var init, a := calls[..|calls| - 1], calls[|calls| - 1];
      VisibleMisses(init, uri);
      assert calls == init + [a];
      FirstMatchSnoc(init, a, uri);
      FirstMatchSnoc(Visible(init, Hash(uri)), a, uri);
    }
  }

  /** `find_alias` over the buckets is the first match over all calls, for every URI and every
      configuration, exactly unless that first match is the alias "/" and the URI's first segment
      hashes elsewhere; it then answers as if "/" had not been configured. */
  lemma FindIsLinear(calls: seq<Alias>, uri: seq<Byte>)
    requires uri != [] && uri[0] == SLASH
    ensures var first := FirstMatch(calls, uri);
            Find(TableOf(calls), uri) == first
            <==> !(first.Some? && first.value.fakename == ROOT && Hash(ROOT) != Hash(uri))
    ensures Find(TableOf(calls), uri) == FirstMatch(Visible(calls, Hash(uri)), uri)
  {
    hide FirstMatch;
    BucketIsWithHash(calls, uri, Hash(uri));
    WithHashIsVisible(calls, uri);
    VisibleMisses(calls, uri);
    var found := FirstMatch(Visible(calls, Hash(uri)), uri);
    if Hash(ROOT) != Hash(uri) {
      RootIsHidden(calls, Hash(uri));
    }
    FirstMatchIsFirst(Visible(calls, Hash(uri)), uri);
  }
}
