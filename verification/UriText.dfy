/** URI text transforms on bytes: the escapers (src/buffer.c, src/index_dir.c), and in-place
    decoding and path cleaning (src/util.c). */
module UriText {
  import opened Commons
  import opened Bytes
  import opened EscapeTable

  const DOT: Byte := 46
  const COLON: Byte := 58
  const PERCENT: Byte := 37
  const QUESTION: Byte := 63
  const HASH: Byte := 35

  /** `buf` holds a C string of length `n`. */
  ghost predicate CString(buf: seq<Byte>, n: nat) {
    n < |buf| && buf[n] == 0 && 0 !in buf[..n]
  }

  // ----- Escaping -----------------------------------------------------------------

  /** `INT_TO_HEX` */
  function IntToHex(x: int): Byte
    requires 0 <= x < 16
  {
    if x > 9 then 97 - 10 + x else 48 + x
  }

  function EscapeByte(c: Byte): seq<Byte> { [PERCENT, IntToHex(c / 16), IntToHex(c % 16)] }

  function EscapeOne(c: Byte, query: bool): (r: seq<Byte>)
    ensures 1 <= |r| <= 3
  {
    if !Unescaped(c) || (query && c == QUESTION) then EscapeByte(c) else [c]
  }

  /** Every byte that is not special, and '?' when `query` is set, becomes "%xx". */
  function Escape(s: seq<Byte>, query: bool): (r: seq<Byte>)
    ensures |s| <= |r| <= 3 * |s|
  {
    if s == [] then []
    else
      var l := s[|s| - 1];
      Escape(s[..|s| - 1], query) + EscapeOne(l, query)
  }

  /** A colon after the first byte would look like a URI scheme. */
  predicate LateColon(s: seq<Byte>) { exists i :: 0 < i < |s| && s[i] == COLON }

  function HttpEscape(s: seq<Byte>): seq<Byte> {
    (if LateColon(s) then [DOT, SLASH] else []) + Escape(s, true)
  }

  /** The writes of one escaped or plain byte at `ix`. */
  method Emit(buf: array<Byte>, ix: nat, c: Byte, escaped: bool) returns (r: nat)
    requires ix + (if escaped then 3 else 1) <= buf.Length
    modifies buf
    ensures r == ix + (if escaped then 3 else 1)
    ensures buf[..r] == old(buf[..ix]) + (if escaped then EscapeByte(c) else [c])
  {
    if escaped {
      buf[ix], buf[ix + 1], buf[ix + 2] := PERCENT, IntToHex(c / 16), IntToHex(c % 16);
      r := ix + 3;
    } else {
      buf[ix] := c;
      r := ix + 1;
    }
  }

  /** `inp` is read up to its NUL; `buf` is the caller's buffer of three bytes per byte. */
  method EscapeString(words: array<Word>, inp: seq<Byte>, buf: array<Byte>) returns (ix: nat)
    requires Built(words[..]) && 0 !in inp
    requires buf.Length == 3 * |inp| + 1
    modifies buf
    ensures ix < buf.Length && buf[..ix] == Escape(inp, false) && buf[ix] == 0
  {
    ix := 0;
    for i := 0 to |inp|
      invariant ix <= 3 * i && buf[..ix] == Escape(inp[..i], false)
      invariant Built(words[..])
    {
      var c := inp[i];
      assert inp[..i + 1][..i] == inp[..i];
      ix := Emit(buf, ix, c, NeedsEscape(words[..], c));
    }
    buf[ix] := 0;
    assert inp[..|inp|] == inp;
  }

  /** `memmove(buf + 2, buf, n)` and the two bytes put before it. */
  method InsertDotSlash(buf: array<Byte>, n: nat)
    requires n + 2 <= buf.Length
    modifies buf
    ensures buf[..n + 2] == [DOT, SLASH] + old(buf[..n])
  {
    forall k | 0 <= k < n {
      buf[k + 2] := buf[k];
    }
    buf[0], buf[1] := DOT, SLASH;
  }

  /** One byte of the loop: `before` has been escaped into `buf[..at]`. */
  method HttpEscapeByte(words: array<Word>, ghost before: seq<Byte>, c: Byte, buf: array<Byte>, at: nat, seenColon: bool)
    returns (ix: nat, foundAColon: bool)
    requires Built(words[..]) && at <= 3 * |before| && at + 3 <= buf.Length && (at > 0 <==> before != [])
    requires buf[..at] == HttpEscape(before) && (seenColon <==> LateColon(before))
    modifies buf
    ensures ix <= 3 * |before| + 3 && 0 < ix <= buf.Length && buf[..ix] == HttpEscape(before + [c])
    ensures foundAColon <==> LateColon(before + [c])
  {
    HttpEscapeStep(before, c);
    foundAColon := seenColon;
    if c == COLON && !foundAColon && at > 0 {
      foundAColon := true;
      InsertDotSlash(buf, at);
      ix := Emit(buf, at + 2, COLON, false);
    } else {
      ix := Emit(buf, at, c, NeedsEscape(words[..], c) || c == QUESTION);
    }
  }

  method HttpEscapeString(words: array<Word>, inp: seq<Byte>, buf: array<Byte>) returns (ix: nat)
    requires Built(words[..]) && 0 !in inp
    requires buf.Length == 3 * |inp| + 1
    modifies buf
    ensures ix < buf.Length && buf[..ix] == HttpEscape(inp) && buf[ix] == 0
  {
    ix := 0;
    var foundAColon := false;
    for i := 0 to |inp|
      invariant ix <= 3 * i && (ix > 0 <==> i > 0)
      invariant buf[..ix] == HttpEscape(inp[..i])
      invariant foundAColon <==> LateColon(inp[..i])
      invariant Built(words[..])
    {
      ix, foundAColon := HttpEscapeByte(words, inp[..i], inp[i], buf, ix, foundAColon);
      assert inp[..i + 1] == inp[..i] + [inp[i]];
    }
    assert inp[..|inp|] == inp;
    buf[ix] := 0;
  }

  lemma HttpEscapeStep(s: seq<Byte>, c: Byte)
    ensures LateColon(s + [c]) <==> LateColon(s) || (c == COLON && s != [])
    ensures HttpEscape(s + [c])
         == if c == COLON && !LateColon(s) && s != [] then [DOT, SLASH] + HttpEscape(s) + [COLON]
            else HttpEscape(s) + (if !Unescaped(c) || c == QUESTION then EscapeByte(c) else [c])
  {
    assert (s + [c])[..|s|] == s;
    assert s != [] ==> (s + [c])[|s|] == c;
    if LateColon(s) {
      var i :| 0 < i < |s| && s[i] == COLON;
      assert (s + [c])[i] == COLON;
    }
  }

  // ----- Decoding -----------------------------------------------------------------

  /** A `char` is signed. */
  function Signed(c: Byte): int { if c >= 128 then c - 256 else c }

  /** One half of `HEX_TO_DECIMAL`; `& 0xdf` folds lower case onto upper case. */
  function HexDigit(c: Byte): int {
    if Signed(c) >= 65 then (if c / 32 % 2 == 1 then c - 32 else c) - 65 + 10 else Signed(c) - 48
  }

  function HexToDecimal(c: Byte, d: Byte): Byte { (HexDigit(c) * 16 + HexDigit(d)) % 256 }

  /** What `unescape_uri` makes of a string: success, the decoded path, the query string. */
  datatype Decoded = Decoded(ok: bool, text: seq<Byte>, query: Option<seq<Byte>>)

  function AfterQuestion(s: seq<Byte>): Option<seq<Byte>> {
    if s == [] then None else if s[0] == QUESTION then Some(s[1..]) else AfterQuestion(s[1..])
  }

  function Unescape(s: seq<Byte>): Decoded {
    if s == [] then Decoded(true, [], None)
    else if s[0] == PERCENT then
      if |s| < 3 then Decoded(false, [], None)
      else var r := Unescape(s[3..]); r.(text := [HexToDecimal(s[1], s[2])] + r.text)
    else if s[0] == QUESTION then Decoded(true, [], Some(s[1..]))
    else if s[0] == HASH then Decoded(true, [], AfterQuestion(s[1..]))
    else var r := Unescape(s[1..]); r.(text := [s[0]] + r.text)
  }

  /** `text` is the decoding of the first `i` bytes of `s`, and the scan goes on at `i`. */
  ghost predicate Decoding(s: seq<Byte>, i: nat, text: seq<Byte>) {
    i <= |s| && Unescape(s) == var r := Unescape(s[i..]); r.(text := text + r.text)
  }

  /** `Unescape` from position `i` of `s`, one step unrolled. */
  lemma UnescapeFrom(s: seq<Byte>, i: nat)
    requires i < |s|
    ensures var c, r := s[i], Unescape(s[i..]);
            if c == PERCENT then
              if i + 2 >= |s| then r == Decoded(false, [], None)
              else r == Unescape(s[i + 3..]).(text := [HexToDecimal(s[i + 1], s[i + 2])] + Unescape(s[i + 3..]).text)
            else if c == QUESTION then r == Decoded(true, [], Some(s[i + 1..]))
            else if c == HASH then r == Decoded(true, [], AfterQuestion(s[i + 1..]))
            else r == Unescape(s[i + 1..]).(text := [c] + Unescape(s[i + 1..]).text)
  {
    var t := s[i..];
    assert t[1..] == s[i + 1..];
    assert |t| >= 3 ==> t[3..] == s[i + 3..] && t[1] == s[i + 1] && t[2] == s[i + 2];
  }

  lemma DecodeStep(s: seq<Byte>, i: nat, text: seq<Byte>)
    requires Decoding(s, i, text)
    ensures if i == |s| then Unescape(s) == Decoded(true, text, None)
            else if s[i] == PERCENT then
              if i + 2 < |s| then Decoding(s, i + 3, text + [HexToDecimal(s[i + 1], s[i + 2])])
              else Unescape(s) == Decoded(false, text, None)
            else if s[i] == QUESTION then Unescape(s) == Decoded(true, text, Some(s[i + 1..]))
            else if s[i] == HASH then Unescape(s) == Decoded(true, text, AfterQuestion(s[i + 1..]))
            else Decoding(s, i + 1, text + [s[i]])
  {
    hide Unescape, AfterQuestion, HexToDecimal;
    assert text + [] == text;
    if i < |s| {
      UnescapeFrom(s, i);
      if s[i] == PERCENT && i + 2 < |s| {
        OneByte(text, HexToDecimal(s[i + 1], s[i + 2]), Unescape(s[i + 3..]).text);
      } else {
        OneByte(text, s[i], Unescape(s[i + 1..]).text);
      }
    } else {
      UnescapeNothing();
      assert s[i..] == [];
    }
  }

  lemma OneByte(a: seq<Byte>, c: Byte, b: seq<Byte>)
    ensures a + ([c] + b) == (a + [c]) + b
  {
  }

  lemma UnescapeNothing()
    ensures Unescape([]) == Decoded(true, [], None)
  {
  }

  /** From position `p` on, `buf` still holds what it held originally. */
  ghost predicate Unread(buf: array<Byte>, orig: seq<Byte>, p: nat)
    reads buf
  {
    buf.Length == |orig| && forall k :: p <= k < |orig| ==> buf[k] == orig[k]
  }

  /** `*uri = c; uri++` leaves what is still to be read alone. */
  method Store(buf: array<Byte>, ghost orig: seq<Byte>, ghost p: nat, uri: nat, c: Byte)
    requires uri < buf.Length && uri < p && Unread(buf, orig, p)
    modifies buf
    ensures buf[..uri + 1] == old(buf[..uri]) + [c] && Unread(buf, orig, p)
  {
    buf[uri] := c;
  }

  /** The final `*uri = '\0'`: it cuts the string at `uri` and changes nothing from the old NUL on. */
  method Terminate(buf: array<Byte>, ghost orig: seq<Byte>, ghost n: nat, uri: nat, ghost p: nat)
    requires uri <= p <= n < |orig| && orig[n] == 0 && Unread(buf, orig, p)
    modifies buf
    ensures buf[uri] == 0 && buf[..uri] == old(buf[..uri]) && Unread(buf, orig, if p == uri && p < n then p + 1 else p)
    ensures buf[n..] == orig[n..]
  {
    buf[uri] := 0;
  }

  /** The scan for '?' after a fragment. */
  method SeekQuestion(buf: array<Byte>, ghost n: nat, start: nat) returns (query: Option<nat>)
    requires start <= n < buf.Length && buf[n] == 0 && forall k :: start <= k < n ==> buf[k] != 0
    ensures query.Some? <==> AfterQuestion(buf[start..n]).Some?
    ensures query.Some? ==> start < query.value <= n && buf[query.value..n] == AfterQuestion(buf[start..n]).value
  {
    var at := start;
    while buf[at] != 0
      invariant start <= at <= n
      invariant AfterQuestion(buf[start..n]) == AfterQuestion(buf[at..n])
      decreases n - at
    {
      assert buf[at..n][1..] == buf[at + 1..n];
      if buf[at] == QUESTION {
        return Some(at + 1);
      }
      at := at + 1;
    }
    return None;
  }

  /** One byte of the loop that is neither '?' nor '#'. */
  method DecodeByte(buf: array<Byte>, ghost orig: seq<Byte>, ghost s: seq<Byte>, at: nat, to: nat)
    returns (ok: bool, uriOld: nat, uri: nat)
    requires to <= at < |s| < |orig| && s == orig[..|s|] && 0 !in s && orig[|s|] == 0
    requires Unread(buf, orig, at) && Decoding(s, at, buf[..to])
    requires buf[at] != QUESTION && buf[at] != HASH
    modifies buf
    ensures uri <= uriOld <= |s| && at < uriOld && Unread(buf, orig, uriOld)
    ensures if ok then Decoding(s, uriOld, buf[..uri]) else Unescape(s) == Decoded(false, buf[..uri], None)
  {
    DecodeStep(s, at, buf[..to]);
    var c := buf[at];
    uriOld, uri, ok := at + 1, to, true;
    if c == PERCENT {
      if buf[uriOld] != 0 && buf[uriOld + 1] != 0 {
        Store(buf, orig, at + 1, uri, HexToDecimal(buf[uriOld], buf[uriOld + 1]));
        uriOld, uri := uriOld + 2, uri + 1;
      } else {
        ok := false;
      }
    } else {
      Store(buf, orig, at + 1, uri, c);
      uri := uri + 1;
    }
  }

  lemma DecodingStart(s: seq<Byte>)
    ensures Decoding(s, 0, [])
  {
    assert s[0..] == s;
    assert [] + Unescape(s).text == Unescape(s).text;
  }

  /** The end of the scan: what `query_string` is made to point to. */
  method TakeQuery(buf: array<Byte>, ghost s: seq<Byte>, at: nat, wantQuery: bool) returns (query: Option<nat>)
    requires at <= |s| < buf.Length && buf[|s|] == 0 && 0 !in s && buf[at..|s|] == s[at..]
    ensures query.Some? <==> wantQuery && at < |s| && (s[at] == QUESTION || (s[at] == HASH && AfterQuestion(s[at + 1..]).Some?))
    ensures query.Some? ==> at < query.value <= |s|
    ensures query.Some? ==> buf[query.value..|s|] == if s[at] == QUESTION then s[at + 1..] else AfterQuestion(s[at + 1..]).value
  {
    query := None;
    assert at < |s| ==> buf[at..|s|][0] == buf[at] && buf[at..|s|][1..] == buf[at + 1..|s|] && s[at..][1..] == s[at + 1..];
    if wantQuery && buf[at] == QUESTION {
      query := Some(at + 1);
    } else if wantQuery && buf[at] == HASH {
      assert forall k :: at <= k < |s| ==> buf[k] == s[at..][k - at] && s[k] == s[at..][k - at];
      query := SeekQuestion(buf, |s|, at + 1);
    }
  }

  lemma UnreadRest(buf: array<Byte>, orig: seq<Byte>, p: nat, from: nat, n: nat)
    requires Unread(buf, orig, p) && p <= from <= n <= |orig|
    ensures buf[from..n] == orig[from..n]
  {
  }

  /** Decoding in place. `uri` never overtakes `uriOld`, so the query string survives; it is
      returned as its offset in the buffer. A null `query_string` is `wantQuery == false`. */
  method UnescapeUri(buf: array<Byte>, ghost n: nat, wantQuery: bool) returns (ok: bool, uri: nat, query: Option<nat>)
    requires CString(buf[..], n)
    modifies buf
    ensures uri <= n && buf[uri] == 0 && buf[n..] == old(buf[n..])
    ensures ok == Unescape(old(buf[..n])).ok && buf[..uri] == Unescape(old(buf[..n])).text
    ensures query.Some? <==> wantQuery && Unescape(old(buf[..n])).query.Some?
    ensures query.Some? ==> uri < query.value <= n && buf[query.value..n] == Unescape(old(buf[..n])).query.value
  {
    hide Unescape, AfterQuestion, Decoding;
    ghost var orig, s := buf[..], buf[..n];
    DecodingStart(s);
    uri, query, ok := 0, None, true;
    var uriOld := 0;
    while buf[uriOld] != 0
      invariant uri <= uriOld <= n && Unread(buf, orig, uriOld) && Decoding(s, uriOld, buf[..uri])
      decreases n - uriOld
    {
      if buf[uriOld] == QUESTION {
        break;
      } else if buf[uriOld] == HASH {
        break;
      }
      ok, uriOld, uri := DecodeByte(buf, orig, s, uriOld, uri);
      if !ok {
        Terminate(buf, orig, n, uri, uriOld);
        return;
      }
    }
    DecodeStep(s, uriOld, buf[..uri]);
    UnreadRest(buf, orig, uriOld, uriOld, n);
    query := TakeQuery(buf, s, uriOld, wantQuery);
    if query.Some? {
      UnreadRest(buf, orig, uriOld, query.value, n);
    }
    Terminate(buf, orig, n, uri, uriOld);
    if query.Some? {
      UnreadRest(buf, orig, if uri == uriOld && uriOld < n then uriOld + 1 else uriOld, query.value, n);
    }
  }

  // ----- What is decoded ----------------------------------------------------------

  /** A byte of a path as a client may write it: as it is, or by two hexadecimal digits, each in either case. */
  datatype Spelling = Bare(c: Byte) | Coded(c: Byte, upperHigh: bool, upperLow: bool)

  /** A percent sign, a number sign and a question mark cannot be written as they are. */
  predicate Writable(x: Spelling) { x.Bare? ==> x.c !in {35, 37, 63} }

  function HexByte(x: int, upper: bool): Byte
    requires 0 <= x < 16
  {
    if x < 10 then 48 + x else if upper then 65 + (x - 10) else 97 + (x - 10)
  }

  function Spelled(xs: seq<Spelling>): seq<Byte> {
    if xs == [] then [] else SpelledByte(xs[0]) + Spelled(xs[1..])
  }

  function SpelledByte(x: Spelling): seq<Byte> {
    match x
    case Bare(c) => [c]
    case Coded(c, high, low) => [37, HexByte(c / 16, high), HexByte(c % 16, low)]
  }

  function Meant(xs: seq<Spelling>): seq<Byte> { if xs == [] then [] else [xs[0].c] + Meant(xs[1..]) }

  lemma HexSpelled(c: Byte, high: bool, low: bool)
    ensures HexToDecimal(HexByte(c / 16, high), HexByte(c % 16, low)) == c
  {
    hide HexByte, HexDigit;
    DigitSpelled(c / 16, high);
    DigitSpelled(c % 16, low);
  }

  lemma DigitSpelled(x: int, upper: bool)
    requires 0 <= x < 16
    ensures HexDigit(HexByte(x, upper)) == x
  {
  }

  /** How one byte is escaped: letters, digits and these marks are left alone, '?' unless it is part of a name,
      and any other byte becomes two hexadecimal digits in lower case. */
  lemma EscapedByte(c: Byte, query: bool)
    ensures Escape([c], query)
         == if 65 <= c <= 90 || 97 <= c <= 122 || 48 <= c <= 57 || (c == 63 && !query)
               || c in {45, 95, 46, 33, 126, 42, 39, 40, 41, 58, 64, 38, 61, 43, 36, 44, 47}
            then [c] else SpelledByte(Coded(c, false, false))
  {
    assert [c][..0] == [] && [] + EscapeOne(c, query) == EscapeOne(c, query);
  }

  lemma ByteDecoded(x: Spelling, rest: seq<Byte>)
    requires Writable(x)
    ensures Prepends(Unescape(SpelledByte(x) + rest), [x.c], Unescape(rest))
  {
    hide HexByte, HexToDecimal, AfterQuestion;
    var t := SpelledByte(x) + rest;
    if x.Coded? {
      HexSpelled(x.c, x.upperHigh, x.upperLow);
      assert t[3..] == rest;
    } else {
      assert t[1..] == rest;
    }
  }

  lemma PrependsBefore(a: Decoded, c: Byte, b: Decoded, s: seq<Byte>, r: Decoded)
    requires Prepends(a, [c], b) && Prepends(b, s, r)
    ensures Prepends(a, [c] + s, r)
  {
    assert [c] + (s + r.text) == ([c] + s) + r.text;
  }

  /** Whatever the spelling, the bytes meant are decoded in front of what follows. */
  lemma {:induction false} SpellingDecoded(xs: seq<Spelling>, rest: seq<Byte>)
    requires forall x <- xs :: Writable(x)
    ensures Prepends(Unescape(Spelled(xs) + rest), Meant(xs), Unescape(rest))
  {
    hide Unescape, SpelledByte, Writable;
    if xs == [] {
      assert Spelled(xs) + rest == rest;
      assert [] + Unescape(rest).text == Unescape(rest).text;
    } else {
      var x, more := xs[0], Spelled(xs[1..]) + rest;
      assert x in xs;
      SpellingDecoded(xs[1..], rest);
      ByteDecoded(x, more);
      assert Spelled(xs) + rest == SpelledByte(x) + more;
      PrependsBefore(Unescape(SpelledByte(x) + more), x.c, Unescape(more), Meant(xs[1..]), Unescape(rest));
    }
  }

  /** The path is what is meant; the query begins behind the first question mark, or behind the one
      after a fragment; and a string that ends within an escape is refused. */
  lemma UriDecoded(xs: seq<Spelling>, q: seq<Byte>, fragment: seq<Byte>)
    requires (forall x <- xs :: Writable(x)) && 63 !in fragment
    ensures Unescape(Spelled(xs)) == Decoded(true, Meant(xs), None)
    ensures Unescape(Spelled(xs) + ([63] + q)) == Decoded(true, Meant(xs), Some(q))
    ensures Unescape(Spelled(xs) + ([35] + fragment)) == Decoded(true, Meant(xs), None)
    ensures Unescape(Spelled(xs) + ([35] + (fragment + ([63] + q)))) == Decoded(true, Meant(xs), Some(q))
    ensures |q| <= 1 ==> Unescape(Spelled(xs) + ([37] + q)) == Decoded(false, Meant(xs), None)
  {
    hide Spelled, Meant;
    assert Spelled(xs) + [] == Spelled(xs) && Meant(xs) + [] == Meant(xs);
    UnescapeNothing();
    Ending(63, q);
    Ending(35, fragment);
    Ending(35, fragment + ([63] + q));
    Ending(37, q);
    NoQuestion(fragment);
    QueryFound(fragment, q);
    SpellingDecoded(xs, []);
    SpellingDecoded(xs, [63] + q);
    SpellingDecoded(xs, [35] + fragment);
    SpellingDecoded(xs, [35] + (fragment + ([63] + q)));
    SpellingDecoded(xs, [37] + q);
  }

  lemma Ending(c: Byte, rest: seq<Byte>)
    requires c in {63, 35, 37}
    ensures Unescape([c] + rest) ==
            if c == 63 then Decoded(true, [], Some(rest)) else if c == 35 then Decoded(true, [], AfterQuestion(rest))
            else if |rest| < 2 then Decoded(false, [], None) else Unescape([c] + rest)
  {
    assert ([c] + rest)[1..] == rest;
  }

  lemma {:induction false} NoQuestion(s: seq<Byte>)
    requires 63 !in s
    ensures AfterQuestion(s) == None
  {
    if s != [] {
      NoQuestion(s[1..]);
    }
  }

  lemma {:induction false} QueryFound(s: seq<Byte>, q: seq<Byte>)
    requires 63 !in s
    ensures AfterQuestion(s + ([63] + q)) == Some(q)
  {
    var t := s + ([63] + q);
    if s == [] {
      assert t[0] == 63 && t[1..] == q;
    } else {
      assert t[0] == s[0] && t[1..] == s[1..] + ([63] + q);
      QueryFound(s[1..], q);
    }
  }

  // ----- Round trips --------------------------------------------------------------

  lemma HexRoundTrip(c: Byte)
    ensures HexToDecimal(IntToHex(c / 16), IntToHex(c % 16)) == c
  {
  }

  lemma UnescapeOne(c: Byte, query: bool, rest: seq<Byte>)
    requires query || c != QUESTION
    ensures Prepends(Unescape(EscapeOne(c, query) + rest), [c], Unescape(rest))
  {
    var e := EscapeOne(c, query);
    HexRoundTrip(c);
    assert (e + rest)[|e|..] == rest;
  }

  /** `a` is `b` with `text` decoded in front of it. */
  ghost predicate Prepends(a: Decoded, text: seq<Byte>, b: Decoded) {
    a == b.(text := text + b.text)
  }

  lemma PrependsTwice(a: Decoded, s: seq<Byte>, b: Decoded, c: Byte, r: Decoded)
    requires Prepends(a, s, b) && Prepends(b, [c], r)
    ensures Prepends(a, s + [c], r)
  {
    assert s + ([c] + r.text) == (s + [c]) + r.text;
  }

  /** Decoding undoes escaping in front of any continuation, as long as no '?' is left bare. */
  lemma {:induction false} UnescapeEscape(s: seq<Byte>, query: bool, rest: seq<Byte>)
    requires query || QUESTION !in s
    ensures Prepends(Unescape(Escape(s, query) + rest), s, Unescape(rest))
  {
    if s == [] {
      assert Escape(s, query) + rest == rest;
    } else {
      var init, c := s[..|s| - 1], s[|s| - 1];
      var e, tail := Escape(init, query), EscapeOne(c, query) + rest;
      assert Escape(s, query) + rest == e + tail;
      UnescapeEscape(init, query, tail);
      UnescapeOne(c, query, rest);
      PrependsTwice(Unescape(e + tail), init, Unescape(tail), c, Unescape(rest));
      assert init + [c] == s;
    }
  }

  lemma {:induction false} EscapeConcat(a: seq<Byte>, b: seq<Byte>, query: bool)
    ensures Escape(a + b, query) == Escape(a, query) + Escape(b, query)
  {
    if b == [] {
      assert a + b == a;
    } else {
      assert (a + b)[..|a + b| - 1] == a + b[..|b| - 1] && (a + b)[|a + b| - 1] == b[|b| - 1];
      EscapeConcat(a, b[..|b| - 1], query);
    }
  }

  /** Decoding the links of a directory index gives back each file name, after "./" exactly
      when the name has a colon that is not its first byte. */
  lemma HttpEscapeRoundTrip(s: seq<Byte>)
    ensures Unescape(HttpEscape(s)) == Decoded(true, (if LateColon(s) then [DOT, SLASH] else []) + s, None)
    ensures |HttpEscape(s)| <= 3 * |s|
  {
    hide Unescape, Escape, LateColon;
    var e := Escape(s, true);
    UnescapeEscape(s, true, []);
    UnescapeNothing();
    assert e + [] == e && s + [] == s;
    assert HttpEscape(s) == (if LateColon(s) then [DOT, SLASH] else []) + e;
    if LateColon(s) {
      DotSlashDecoded(e);
      ColonIn(s);
      ColonSavesTwo(s);
    } else {
      assert [] + s == s && [] + e == e;
      EscapeLength(s);
    }
  }

  lemma EscapeLength(s: seq<Byte>)
    ensures |Escape(s, true)| <= 3 * |s|
  {
  }

  lemma ColonIn(s: seq<Byte>)
    requires LateColon(s)
    ensures COLON in s
  {
  }

  lemma DotSlashDecoded(e: seq<Byte>)
    ensures Prepends(Unescape([DOT, SLASH] + e), [DOT, SLASH], Unescape(e))
  {
    hide HexToDecimal, AfterQuestion;
    var h := [DOT, SLASH] + e;
    assert h[1..] == [SLASH] + e && h[1..][1..] == e;
    assert [DOT] + ([SLASH] + Unescape(e).text) == [DOT, SLASH] + Unescape(e).text;
  }

  /** The two bytes of the prefix are paid for by the colon, which is not escaped. */
  lemma ColonSavesTwo(s: seq<Byte>)
    requires COLON in s
    ensures |Escape(s, true)| + 2 <= 3 * |s|
  {
    hide Escape;
    var i :| 0 <= i < |s| && s[i] == COLON;
    assert s == s[..i] + ([COLON] + s[i + 1..]);
    EscapeConcat(s[..i], [COLON] + s[i + 1..], true);
    EscapeConcat([COLON], s[i + 1..], true);
    ColonIsBare();
    EscapeLength(s[..i]);
    EscapeLength(s[i + 1..]);
  }

  lemma ColonIsBare()
    ensures Escape([COLON], true) == [COLON]
  {
  }

  /** A bare '?' ends the decoded path. */
  lemma BareQuestion(a: seq<Byte>, b: seq<Byte>)
    requires QUESTION !in a
    ensures Unescape(Escape(a + ([QUESTION] + b), false)) == Decoded(true, a, Some(Escape(b, false)))
  {
    EscapeConcat(a, [QUESTION] + b, false);
    EscapeConcat([QUESTION], b, false);
    var rest := [QUESTION] + Escape(b, false);
    assert Escape([QUESTION], false) == [QUESTION];
    UnescapeEscape(a, false, rest);
    assert rest[1..] == Escape(b, false) && a + [] == a;
  }

  /** `escape_string` leaves '?' bare, so decoding its output gives the input back exactly when
      the input has no '?'; otherwise the path ends at the first one. */
  lemma EscapeStringRoundTrip(s: seq<Byte>)
    ensures Unescape(Escape(s, false)).ok
    ensures Unescape(Escape(s, false)).text == s <==> QUESTION !in s
    ensures Unescape(Escape(s, false)).query.None? <==> QUESTION !in s
  {
    hide Unescape, Escape;
    if QUESTION !in s {
      UnescapeEscape(s, false, []);
      UnescapeNothing();
      assert Escape(s, false) + [] == Escape(s, false) && s + [] == s;
    } else {
      var i := FirstQuestion(s);
      assert s == s[..i] + ([QUESTION] + s[i + 1..]);
      BareQuestion(s[..i], s[i + 1..]);
    }
  }

  lemma {:induction false} FirstQuestion(s: seq<Byte>) returns (i: nat)
    requires QUESTION in s
    ensures i < |s| && s[i] == QUESTION && QUESTION !in s[..i]
  {
    if s[0] == QUESTION {
      i := 0;
    } else {
      var j := FirstQuestion(s[1..]);
      i := j + 1;
      assert s[..i] == [s[0]] + s[1..][..j];
    }
  }

  // ----- Cleaning a path ----------------------------------------------------------

  /** The length of a "/", "./" or "../" at position `p`; 0 when there is none. */
  function DotPrefix(s: seq<Byte>, p: nat): (k: nat)
    requires p <= |s|
    ensures p + k <= |s|
  {
    if p < |s| && s[p] == SLASH then 1
    else if p + 1 < |s| && s[p] == DOT && s[p + 1] == SLASH then 2
    else if p + 2 < |s| && s[p] == DOT && s[p + 1] == DOT && s[p + 2] == SLASH then 3
    else 0
  }

  /** The inner loop of `clean_pathname`. */
  function SkipDots(s: seq<Byte>, p: nat): (q: nat)
    requires p <= |s|
    ensures p <= q <= |s|
    decreases |s| - p
  {
    if DotPrefix(s, p) == 0 then p else SkipDots(s, p + DotPrefix(s, p))
  }

  /** `clean_pathname` from position `p` on. */
  function CleanFrom(s: seq<Byte>, p: nat): (r: seq<Byte>)
    requires p <= |s|
    ensures |r| <= |s| - p
    decreases |s| - p
  {
    if p == |s| then []
    else [s[p]] + CleanFrom(s, if s[p] == SLASH then SkipDots(s, p + 1) else p + 1)
  }

  function Clean(s: seq<Byte>): (r: seq<Byte>)
    ensures |r| <= |s|
  {
    CleanFrom(s, 0)
  }

  /** The inner loop: `pathname` moves over "/", "./" and "../". */
  method SkipDotsAt(buf: array<Byte>, ghost s: seq<Byte>, start: nat) returns (p: nat)
    requires start <= |s| < buf.Length && buf[|s|] == 0
    requires forall k :: start <= k < |s| ==> buf[k] == s[k]
    ensures p == SkipDots(s, start)
  {
    p := start;
    while true
      invariant start <= p <= |s| && SkipDots(s, p) == SkipDots(s, start)
      decreases |s| - p
    {
      if buf[p] == SLASH {
        p := p + 1;
      } else if buf[p] == DOT && buf[p + 1] == SLASH {
        p := p + 2;
      } else if buf[p] == DOT && buf[p + 1] == DOT && buf[p + 2] == SLASH {
        p := p + 3;
      } else {
        return;
      }
    }
  }

  /** `text` is the cleaning of the first `p` bytes of `s`, and the scan goes on at `p`. */
  ghost predicate Cleaning(s: seq<Byte>, p: nat, text: seq<Byte>) {
    p <= |s| && Clean(s) == text + CleanFrom(s, p)
  }

  lemma CleanNext(s: seq<Byte>, p: nat)
    requires p <= |s|
    ensures CleanFrom(s, p) == if p == |s| then []
                               else [s[p]] + CleanFrom(s, if s[p] == SLASH then SkipDots(s, p + 1) else p + 1)
  {
  }

  lemma CleanStep(s: seq<Byte>, p: nat, text: seq<Byte>)
    requires Cleaning(s, p, text)
    ensures p == |s| ==> Clean(s) == text
    ensures p < |s| ==> Cleaning(s, if s[p] == SLASH then SkipDots(s, p + 1) else p + 1, text + [s[p]])
  {
    hide CleanFrom, SkipDots, Clean;
    CleanNext(s, p);
    assert text + [] == text;
    if p < |s| {
      OneByte(text, s[p], CleanFrom(s, if s[p] == SLASH then SkipDots(s, p + 1) else p + 1));
    }
  }

  /** One byte of the outer loop. */
  method CleanByte(buf: array<Byte>, ghost orig: seq<Byte>, ghost s: seq<Byte>, at: nat, to: nat)
    returns (p: nat, m: nat)
    requires to <= at < |s| < |orig| && s == orig[..|s|] && orig[|s|] == 0
    requires Unread(buf, orig, at) && Cleaning(s, at, buf[..to])
    modifies buf
    ensures m <= p <= |s| && at < p && Unread(buf, orig, p) && Cleaning(s, p, buf[..m])
  {
    CleanStep(s, at, buf[..to]);
    var c := buf[at];
    p := at + 1;
    if c == SLASH {
      p := SkipDotsAt(buf, s, p);
    }
    Store(buf, orig, at + 1, to, c);
    m := to + 1;
  }

  /** `cleanpath` trails `pathname` in the same buffer. */
  method CleanPathname(buf: array<Byte>, ghost n: nat) returns (m: nat)
    requires CString(buf[..], n)
    modifies buf
    ensures m <= n && buf[..m] == Clean(old(buf[..n])) && buf[m] == 0
    ensures buf[n..] == old(buf[n..])
  {
    ghost var orig, s := buf[..], buf[..n];
    var p := 0;
    m := 0;
    while buf[p] != 0
      invariant m <= p <= n && Unread(buf, orig, p) && Cleaning(s, p, buf[..m])
      decreases n - p
    {
      p, m := CleanByte(buf, orig, s, p, m);
    }
    CleanStep(s, p, buf[..m]);
    Terminate(buf, orig, n, m, p);
  }

  // A path is its segments between slashes; cleaning drops the empty, "." and ".." ones that
  // are neither first nor last.

  /** The segments of `s` from position `p` on. */
  function Split(s: seq<Byte>, p: nat): (r: seq<seq<Byte>>)
    requires p <= |s|
    ensures |r| >= 1
    decreases |s| - p
  {
    if p == |s| then [[]]
    else if s[p] == SLASH then [[]] + Split(s, p + 1)
    else var r := Split(s, p + 1); [[s[p]] + r[0]] + r[1..]
  }

  function Join(segments: seq<seq<Byte>>): seq<Byte>
    requires |segments| >= 1
  {
    if |segments| == 1 then segments[0] else segments[0] + [SLASH] + Join(segments[1..])
  }

  predicate Dotted(segment: seq<Byte>) { segment == [] || segment == [DOT] || segment == [DOT, DOT] }

  /** Drops dotted segments, but never the last one. */
  function DropDotted(segments: seq<seq<Byte>>): (r: seq<seq<Byte>>)
    requires |segments| >= 1
    ensures |r| >= 1
  {
    if |segments| == 1 then segments
    else if Dotted(segments[0]) then DropDotted(segments[1..])
    else [segments[0]] + DropDotted(segments[1..])
  }

  /** The specification: the first segment stays, whatever it is. */
  function CleanSegments(segments: seq<seq<Byte>>): (r: seq<seq<Byte>>)
    requires |segments| >= 1
    ensures |r| >= 1
  {
    if |segments| == 1 then segments else [segments[0]] + DropDotted(segments[1..])
  }

  /** A segment read one byte at a time. */
  lemma JoinByte(c: Byte, first: seq<Byte>, rest: seq<seq<Byte>>)
    ensures Join([[c] + first] + rest) == [c] + Join([first] + rest)
  {
    var longer, shorter := [[c] + first] + rest, [first] + rest;
    assert longer[1..] == rest && shorter[1..] == rest;
    if rest != [] {
      assert ([c] + first) + [SLASH] + Join(rest) == [c] + (first + [SLASH] + Join(rest));
    }
  }

  lemma SplitAt(s: seq<Byte>, p: nat)
    requires p <= |s|
    ensures Split(s, p)[0] == [] <==> p == |s| || s[p] == SLASH
    ensures p < |s| && s[p] == SLASH ==> |Split(s, p)| > 1 && Split(s, p)[1..] == Split(s, p + 1)
    ensures p < |s| && s[p] != SLASH ==>
              |Split(s, p)| == |Split(s, p + 1)| && Split(s, p)[0] == [s[p]] + Split(s, p + 1)[0]
              && Split(s, p)[1..] == Split(s, p + 1)[1..]
    ensures p == |s| ==> |Split(s, p)| == 1
  {
  }

  /** A prefix "/", "./" or "../" is exactly a dotted segment that is not the last. */
  lemma DotPrefixIsDotted(s: seq<Byte>, p: nat)
    requires p <= |s|
    ensures DotPrefix(s, p) > 0 <==> |Split(s, p)| > 1 && Dotted(Split(s, p)[0])
    ensures DotPrefix(s, p) > 0 ==> Split(s, p)[1..] == Split(s, p + DotPrefix(s, p))
  {
    SplitAt(s, p);
    if p < |s| && s[p] != SLASH {
      var segment := Split(s, p)[0];
      SplitAt(s, p + 1);
      assert segment[0] == s[p] && |segment| == 1 + |Split(s, p + 1)[0]|;
      if p + 1 < |s| && s[p + 1] != SLASH {
        SplitAt(s, p + 2);
        assert segment[1] == s[p + 1] && |segment| == 2 + |Split(s, p + 2)[0]|;
        assert Dotted(segment) <==> |segment| == 2 && segment[0] == DOT && segment[1] == DOT;
      } else {
        assert Dotted(segment) <==> segment[0] == DOT;
      }
    }
  }

  /** Cleaning is dropping segments, for the rest of a segment and at the start of one. */
  lemma {:induction false} CleanFromSegments(s: seq<Byte>, p: nat)
    requires p <= |s|
    ensures CleanFrom(s, p) == Join(CleanSegments(Split(s, p)))
    ensures CleanFrom(s, SkipDots(s, p)) == Join(DropDotted(Split(s, p)))
    decreases |s| - p
  {
    hide Join, Split, CleanFrom, CleanSegments, DropDotted, Dotted, DotPrefix;
    if p < |s| {
      CleanFromSegments(s, p + 1);
      CleanOneByte(s, p);
    } else {
      CleanNothing(s);
    }
    DotPrefixIsDotted(s, p);
    DropFirst(Split(s, p));
    if DotPrefix(s, p) > 0 {
      CleanFromSegments(s, p + DotPrefix(s, p));
    }
  }

  lemma CleanNothing(s: seq<Byte>)
    ensures CleanFrom(s, |s|) == Join(CleanSegments(Split(s, |s|)))
  {
  }

  /** Dropping begins with the first segment if that is dotted and not the last, and else behind it. */
  lemma DropFirst(segments: seq<seq<Byte>>)
    requires |segments| >= 1
    ensures if |segments| > 1 && Dotted(segments[0]) then DropDotted(segments) == DropDotted(segments[1..])
            else DropDotted(segments) == CleanSegments(segments)
  {
  }

  lemma CleanOneByte(s: seq<Byte>, p: nat)
    requires p < |s|
    requires CleanFrom(s, p + 1) == Join(CleanSegments(Split(s, p + 1)))
    requires CleanFrom(s, SkipDots(s, p + 1)) == Join(DropDotted(Split(s, p + 1)))
    ensures CleanFrom(s, p) == Join(CleanSegments(Split(s, p)))
  {
    hide Dotted, SkipDots, DotPrefix;
    var whole, r := Split(s, p), Split(s, p + 1);
    if s[p] == SLASH {
      assert whole[1..] == r;
      var d := DropDotted(r);
      assert ([[]] + d)[1..] == d;
      assert [] + [SLASH] + Join(d) == [SLASH] + Join(d);
    } else {
      var d := CleanSegments(r);
      assert whole[1..] == r[1..];
      assert CleanSegments(whole) == [[s[p]] + d[0]] + d[1..];
      JoinByte(s[p], d[0], d[1..]);
      assert [d[0]] + d[1..] == d;
    }
  }

  lemma {:induction false} SplitJoin(s: seq<Byte>, p: nat)
    requires p <= |s|
    ensures Join(Split(s, p)) == s[p..]
    ensures forall i :: 0 <= i < |Split(s, p)| ==> SLASH !in Split(s, p)[i]
    decreases |s| - p
  {
    if p < |s| {
      SplitJoin(s, p + 1);
      SplitAt(s, p);
      var r, r1 := Split(s, p), Split(s, p + 1);
      if s[p] != SLASH {
        JoinByte(s[p], r1[0], r1[1..]);
        assert [r1[0]] + r1[1..] == r1;
      }
      forall i | 0 <= i < |r|
        ensures SLASH !in r[i]
      {
        assert i > 0 ==> r[i] == r[1..][i - 1];
        assert i > 0 && s[p] != SLASH ==> r1[1..][i - 1] == r1[i];
      }
    }
  }

  /** Splitting undoes joining, so a path and its segments determine each other. */
  lemma {:induction false} JoinSplit(segments: seq<seq<Byte>>, before: seq<Byte>)
    requires |segments| >= 1 && forall i :: 0 <= i < |segments| ==> SLASH !in segments[i]
    ensures Split(before + Join(segments), |before|) == segments
    decreases |segments|, |segments[0]|
  {
    var s := before + Join(segments);
    if segments[0] != [] {
      var c := segments[0][0];
      var shorter := [segments[0][1..]] + segments[1..];
      assert [c] + segments[0][1..] == segments[0];
      assert [segments[0]] + segments[1..] == segments;
      JoinByte(c, segments[0][1..], segments[1..]);
      assert s == (before + [c]) + Join(shorter);
      JoinSplit(shorter, before + [c]);
    } else if |segments| > 1 {
      assert s == (before + [SLASH]) + Join(segments[1..]);
      JoinSplit(segments[1..], before + [SLASH]);
      assert [[]] + segments[1..] == segments;
    }
  }

  lemma {:induction false} DropDottedKeeps(segments: seq<seq<Byte>>)
    requires |segments| >= 1
    ensures var r := DropDotted(segments);
            && r[|r| - 1] == segments[|segments| - 1]
            && (forall i :: 0 <= i < |r| ==> r[i] in segments)
            && (forall i :: 0 <= i < |r| - 1 ==> !Dotted(r[i]))
  {
    if |segments| > 1 {
      DropDottedKeeps(segments[1..]);
    }
  }

  lemma {:induction false} DropDottedStable(segments: seq<seq<Byte>>)
    requires |segments| >= 1 && forall i :: 0 <= i < |segments| - 1 ==> !Dotted(segments[i])
    ensures DropDotted(segments) == segments
  {
    if |segments| > 1 {
      DropDottedStable(segments[1..]);
      assert [segments[0]] + segments[1..] == segments;
    }
  }

  /** What `clean_pathname` promises: the segments of the result are those of the path without
      the empty, "." and ".." ones strictly inside it, in order. */
  lemma CleanSpecification(s: seq<Byte>)
    ensures Split(Clean(s), 0) == CleanSegments(Split(s, 0))
    ensures var r := Split(Clean(s), 0);
            && r[0] == Split(s, 0)[0]
            && (forall i :: 0 < i < |r| - 1 ==> !Dotted(r[i]))
    ensures Clean(Clean(s)) == Clean(s)
  {
    var segments := Split(s, 0);
    var cleaned := CleanSegments(segments);
    SplitJoin(s, 0);
    CleanFromSegments(s, 0);
    if |segments| > 1 {
      DropDottedKeeps(segments[1..]);
      forall i | 0 <= i < |cleaned|
        ensures SLASH !in cleaned[i]
      {
        assert i > 0 ==> cleaned[i] in segments[1..];
      }
      assert forall i :: 0 < i < |cleaned| - 1 ==> cleaned[i] == DropDotted(segments[1..])[i - 1];
    }
    JoinSplit(cleaned, []);
    assert [] + Join(cleaned) == Clean(s);
    CleanFromSegments(Clean(s), 0);
    if |cleaned| > 1 {
      DropDottedStable(cleaned[1..]);
      assert [cleaned[0]] + cleaned[1..] == cleaned;
    }
  }

  /** The segments after a slash are a proper tail of all the segments. */
  lemma {:induction false} SplitAfterSlash(s: seq<Byte>, p: nat, i: nat) returns (j: nat)
    requires p <= i < |s| && s[i] == SLASH
    ensures 0 < j < |Split(s, p)| && Split(s, i + 1) == Split(s, p)[j..]
    decreases i - p
  {
    SplitAt(s, p);
    if p == i {
      j := 1;
    } else {
      var k := SplitAfterSlash(s, p + 1, i);
      if s[p] == SLASH {
        j := k + 1;
        assert Split(s, p)[1..][k..] == Split(s, p)[j..];
      } else {
        j := k;
        assert Split(s, p)[1..][k - 1..] == Split(s, p)[k..];
        assert Split(s, p + 1)[1..][k - 1..] == Split(s, p + 1)[k..];
      }
    }
  }

  /** Read as text: after cleaning, no slash is followed by "/", "./" or "../". */
  lemma NoDotsAfterSlash(s: seq<Byte>, i: nat)
    requires i < |Clean(s)| && Clean(s)[i] == SLASH
    ensures DotPrefix(Clean(s), i + 1) == 0
  {
    CleanSpecification(s);
    var j := SplitAfterSlash(Clean(s), 0, i);
    DotPrefixIsDotted(Clean(s), i + 1);
  }

  /** The C string a buffer holds when decoding has put a NUL inside it. */
  function UpToNul(s: seq<Byte>): (r: seq<Byte>)
    ensures |r| <= |s| && r == s[..|r|] && 0 !in r && (|r| < |s| ==> s[|r|] == 0)
  {
    if s == [] || s[0] == 0 then [] else [s[0]] + UpToNul(s[1..])
  }

  lemma SameTail(a: seq<Byte>, b: seq<Byte>, k: nat, p: nat, n: nat)
    requires k <= p <= n <= |a| == |b| && a[k..] == b[k..]
    ensures a[p..n] == b[p..n]
  {
    forall i | p <= i < n
      ensures a[i] == b[i]
    {
      assert a[k..][i - k] == b[k..][i - k];
    }
  }

  /** The decoding part of `process_header_end`. */
  method DecodeRequestUri(buf: array<Byte>, ghost n: nat) returns (ok: bool, m: nat, query: Option<nat>)
    requires CString(buf[..], n)
    modifies buf
    ensures ok == Unescape(old(buf[..n])).ok
    ensures ok ==> m <= n && buf[m] == 0 && buf[..m] == Clean(UpToNul(Unescape(old(buf[..n])).text))
    ensures query.Some? <==> Unescape(old(buf[..n])).query.Some?
    ensures query.Some? ==> query.value <= n && buf[query.value..n] == Unescape(old(buf[..n])).query.value
  {
    ok, m, query := UnescapeUri(buf, n, true);
    if ok {
      ghost var text := buf[..m];
      ghost var k := |UpToNul(text)|;
      assert k < m ==> buf[k] == text[k];
      assert buf[..k] == UpToNul(text);
      ghost var decoded := buf[..];
      m := CleanPathname(buf, k);
      if query.Some? {
        SameTail(buf[..], decoded, k, query.value, n);
      }
    }
  }
}
