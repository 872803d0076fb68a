/** Reading a multipart response back. The reader knows only what section 19.2 of RFC 2616 says of
    "multipart/byteranges" and the boundary that the server announces; the texts it is given are
    those of src/response.c:115-172. */
module Multipart {
  import opened Commons
  import opened RangeSyntax
  import opened Transfer
  import RangeList
  import Courses

  // ----- A reader -------------------------------------------------------------------------

  /** The type, if there is one, the three numbers of the "Content-Range" line, and the bytes they announce. */
  datatype Part = Part(kind: Option<string>, start: nat, stop: nat, total: nat, body: string)

  /** The same, with the text behind the header. */
  datatype Header = Header(kind: Option<string>, start: nat, stop: nat, total: nat, rest: string)

  /** What follows `prefix`. */
  function Behind(t: string, prefix: string): (r: Option<string>)
    ensures r.Some? ==> t == prefix + r.value
  {
    if prefix <= t then Some(t[|prefix|..]) else None
  }

  /** The first line, and what follows its end. */
  function Line(t: string): (r: (string, string))
    ensures |r.1| <= |t|
  {
    if |t| < 2 then (t, "")
    else if t[0] == '\r' && t[1] == '\n' then ("", t[2..])
    else
      var (line, rest) := Line(t[1..]);
      ([t[0]] + line, rest)
  }

  /** The number at the beginning of `t`, whose digits before it have the value `n`. */
  function Scanned(t: string, n: nat): (r: (nat, string))
    ensures |r.1| <= |t|
  {
    if t == "" || t[0] < '0' || t[0] > '9' then (n, t) else Scanned(t[1..], 10 * n + (t[0] - '0') as nat)
  }

  /** The "Content-Range" line and the end of the header. */
  function ReadRange(kind: Option<string>, t: string): (r: Option<Header>)
    ensures r.Some? ==> |r.value.rest| < |t|
  {
    var line := Behind(t, "Content-Range: bytes ");
    if line.None? then None
    else
      var (start, t1) := Scanned(line.value, 0);
      var dash := Behind(t1, "-");
      if dash.None? then None
      else
        var (stop, t2) := Scanned(dash.value, 0);
        var slash := Behind(t2, "/");
        if slash.None? then None
        else
          var (total, t3) := Scanned(slash.value, 0);
          var rest := Behind(t3, "\r\n\r\n");
          if rest.None? then None else Some(Header(kind, start, stop, total, rest.value))
  }

  /** The separator, a "Content-Type" line if there is one, and the rest of the header. */
  function ReadHeader(t: string): (r: Option<Header>)
    ensures r.Some? ==> |r.value.rest| < |t|
  {
    var s := Behind(t, "\r\n--THIS_STRING_SEPARATES\r\n");
    if s.None? then None else ReadTyped(s.value)
  }

  function ReadTyped(t: string): (r: Option<Header>)
    ensures r.Some? ==> |r.value.rest| < |t|
  {
    var (line, rest) := Line(t);
    var kind := Behind(line, "Content-Type: ");
    if kind.Some? then ReadRange(kind, rest) else ReadRange(None, t)
  }

  /** The parts of a whole text; a response to a HEAD request has their headers only. */
  function ReadParts(t: string, head: bool): Option<seq<Part>>
    decreases |t|
  {
    if t == "\r\n--THIS_STRING_SEPARATES--\r\n" then Some([])
    else match ReadHeader(t)
      case None => None
      case Some(h) =>
        var n := if head then 0 else h.stop - h.start + 1;
        if n < 0 || n > |h.rest| then None
        else match ReadParts(h.rest[n..], head)
          case None => None
          case Some(parts) => Some([Part(h.kind, h.start, h.stop, h.total, h.rest[..n])] + parts)
  }

  // ----- One header -----------------------------------------------------------------------

  /** What the configuration says of the type holds no line end. */
  predicate OneLine(job: Job) {
    (job.mime.Some? ==> '\r' !in job.mime.value) && (job.charset.Some? ==> '\r' !in job.charset.value)
  }

  lemma {:induction false} FlatConcat(a: seq<string>, b: seq<string>)
    ensures Flat(a + b) == Flat(a) + Flat(b)
  {
    if b == [] {
      assert a + b == a && Flat(a) + "" == Flat(a);
    } else {
      assert (a + b)[..|a + b| - 1] == a + b[..|b| - 1];
      FlatConcat(a, b[..|b| - 1]);
    }
  }

  lemma FlatCons(x: string, rest: seq<string>)
    ensures Flat([x] + rest) == x + Flat(rest)
  {
    FlatConcat([x], rest);
    assert Flat([x]) == Flat([]) + x by { assert [x][..0] == []; }
  }

  lemma {:induction false} ScannedDigits(n: nat, rest: string)
    ensures Scanned(Digits(n) + rest, 0) == Scanned(rest, n)
  {
    var last := ['0' + (n % 10) as char];
    assert (last + rest)[1..] == rest;
    if n >= 10 {
      assert Digits(n) + rest == Digits(n / 10) + (last + rest);
      ScannedDigits(n / 10, last + rest);
    }
  }

  lemma {:induction false} LineIs(line: string, rest: string)
    requires '\r' !in line
    ensures Line(line + "\r\n" + rest) == (line, rest)
  {
    var t := line + "\r\n" + rest;
    if line == "" {
      assert t[2..] == rest;
    } else {
      assert t[0] == line[0] && t[1..] == line[1..] + "\r\n" + rest;
      LineIs(line[1..], rest);
      assert [line[0]] + line[1..] == line;
    }
  }

  lemma BehindIs(prefix: string, rest: string)
    ensures Behind(prefix + rest, prefix) == Some(rest)
  {
  }

  /** The type of a part: that of the file, with the character set if it is a text. */
  function Kind(job: Job): Option<string> {
    if job.mime.None? then None
    else
      var m := job.mime.value;
      if job.charset.Some? && |m| >= 4 && m[..4] in SpellingsOfText() then Some(m + ("; charset=" + job.charset.value)) else Some(m)
  }

  function SpellingsOfText(): set<string> {
    set a <- {'t', 'T'}, b <- {'e', 'E'}, c <- {'x', 'X'}, d <- {'t', 'T'} :: [a, b, c, d]
  }

  lemma TextSpelled(m: string)
    ensures IsText(m) <==> |m| >= 4 && m[..4] in SpellingsOfText()
  {
    assert |m| >= 4 ==> m[..4] == [m[0], m[1], m[2], m[3]];
  }

  /** The "Content-Type" line, if there is one. */
  lemma TypeLine(job: Job)
    ensures Flat(ContentType(job)) == if job.mime.None? then "" else ("Content-Type: " + Kind(job).value) + "\r\n"
  {
    hide Flat, IsText, SpellingsOfText;
    FlatNone();
    if job.mime.Some? {
      var m := job.mime.value;
      var cs := if job.charset.Some? && IsText(m) then ["; charset=", job.charset.value] else [];
      FlatConcat(["Content-Type: ", m] + cs, [CRLF]);
      FlatConcat(["Content-Type: ", m], cs);
      FlatTwo("Content-Type: ", m);
      FlatOne(CRLF);
      TextSpelled(m);
      if cs != [] {
        FlatTwo("; charset=", job.charset.value);
        Joined("Content-Type: ", m, "; charset=" + job.charset.value);
      }
    }
  }

  lemma Joined(a: string, b: string, c: string)
    ensures (a + b) + c == a + (b + c)
  {
  }

  lemma FlatNone()
    ensures Flat([]) == ""
  {
  }

  lemma FlatOne(x: string)
    ensures Flat([x]) == x
  {
    assert [x][..0] == [] && "" + x == x;
  }

  lemma FlatTwo(x: string, y: string)
    ensures Flat([x, y]) == x + y
  {
    FlatCons(x, [y]);
    FlatOne(y);
    assert [x] + [y] == [x, y];
  }

  /** The "Content-Range" line and the end of the header. */
  lemma RangeLine(job: Job, r: Spec)
    requires 0 <= r.start && 0 <= r.stop
    ensures Flat(ContentRange(job, r) + [CRLF])
         == "Content-Range: bytes " + (Digits(r.start) + ("-" + (Digits(r.stop) + ("/" + (Digits(|job.file|) + "\r\n\r\n")))))
  {
    hide Digits;
    var t1 := [CRLF];
    var t2 := [CRLF] + t1;
    var t3 := [Digits(|job.file|)] + t2;
    var t4 := ["/"] + t3;
    var t5 := [Digits(r.stop)] + t4;
    var t6 := ["-"] + t5;
    var t7 := [Digits(r.start)] + t6;
    FlatCons(CRLF, []);
    assert [CRLF] + [] == t1;
    FlatCons(CRLF, t1);
    FlatCons(Digits(|job.file|), t2);
    FlatCons("/", t3);
    FlatCons(Digits(r.stop), t4);
    FlatCons("-", t5);
    FlatCons(Digits(r.start), t6);
    FlatCons("Content-Range: bytes ", t7);
    assert ContentRange(job, r) + [CRLF] == ["Content-Range: bytes "] + t7;
  }

  /** A number is read up to what follows it. */
  lemma NumberThen(n: nat, rest: string)
    requires rest != "" && !IsDigit(rest[0])
    ensures Scanned(Digits(n) + rest, 0) == (n, rest)
  {
    ScannedDigits(n, rest);
  }

  /** Where to find the parts of a line that is followed by `rest`. */
  lemma Lined(a: string, b: string, c: string, rest: string)
    ensures ("Content-Range: bytes " + (a + ("-" + (b + ("/" + (c + "\r\n\r\n")))))) + rest
         == "Content-Range: bytes " + (a + ("-" + (b + ("/" + (c + ("\r\n\r\n" + rest))))))
  {
    var d := "\r\n\r\n";
    assert (c + d) + rest == c + (d + rest);
    assert ("/" + (c + d)) + rest == "/" + ((c + d) + rest);
    assert (b + ("/" + (c + d))) + rest == b + (("/" + (c + d)) + rest);
    assert ("-" + (b + ("/" + (c + d)))) + rest == "-" + ((b + ("/" + (c + d))) + rest);
    assert (a + ("-" + (b + ("/" + (c + d))))) + rest == a + (("-" + (b + ("/" + (c + d)))) + rest);
  }

  lemma RangeRead(kind: Option<string>, a: nat, b: nat, n: nat, rest: string)
    ensures ReadRange(kind, "Content-Range: bytes " + (Digits(a) + ("-" + (Digits(b) + ("/" + (Digits(n) + ("\r\n\r\n" + rest)))))))
         == Some(Header(kind, a, b, n, rest))
  {
    hide Digits, Scanned, Behind;
    var t4 := "\r\n\r\n" + rest;
    var t3 := "/" + (Digits(n) + t4);
    var t2 := "-" + (Digits(b) + t3);
    BehindIs("Content-Range: bytes ", Digits(a) + t2);
    NumberThen(a, t2);
    BehindIs("-", Digits(b) + t3);
    NumberThen(b, t3);
    BehindIs("/", Digits(n) + t4);
    NumberThen(n, t4);
    BehindIs("\r\n\r\n", rest);
  }

  /** Every part header is read back, whatever follows it. */
  lemma HeaderRead(job: Job, r: Spec, rest: string)
    requires OneLine(job) && 0 <= r.start && 0 <= r.stop
    ensures ReadHeader(Flat(PartHeader(job, r)) + rest) == Some(Header(Kind(job), r.start, r.stop, |job.file|, rest))
  {
    hide Digits, ContentType, ContentRange, PartHeader, Flat, ReadRange, Line, Behind, Kind, ReadTyped;
    RangeLine(job, r);
    Lined(Digits(r.start), Digits(r.stop), Digits(|job.file|), rest);
    RangeRead(Kind(job), r.start, r.stop, |job.file|, rest);
    var text := Flat(ContentRange(job, r) + [CRLF]) + rest;
    PartHeaderFlat(job, r, rest);
    assert SEPARATOR == "\r\n--THIS_STRING_SEPARATES\r\n";
    BehindIs(SEPARATOR, Flat(ContentType(job)) + text);
    TypedRead(job, text);
  }

  lemma PartHeaderFlat(job: Job, r: Spec, rest: string)
    requires 0 <= r.start && 0 <= r.stop
    ensures Flat(PartHeader(job, r)) + rest
         == SEPARATOR + (Flat(ContentType(job)) + (Flat(ContentRange(job, r) + [CRLF]) + rest))
  {
    hide Digits, ContentType, ContentRange;
    FlatCons(SEPARATOR, ContentType(job) + (ContentRange(job, r) + [CRLF]));
    FlatConcat(ContentType(job), ContentRange(job, r) + [CRLF]);
    assert PartHeader(job, r) == [SEPARATOR] + (ContentType(job) + (ContentRange(job, r) + [CRLF]));
  }

  /** The reader takes the "Content-Type" line, and nothing else. */
  lemma TypedRead(job: Job, rest: string)
    requires OneLine(job) && "Content-Range: bytes " <= rest
    ensures ReadTyped(Flat(ContentType(job)) + rest) == ReadRange(Kind(job), rest)
  {
    hide Line, ReadRange, ContentType, Flat, SpellingsOfText;
    TypeLine(job);
    if job.mime.Some? {
      var line := "Content-Type: " + Kind(job).value;
      LineIs(line, rest);
      BehindIs("Content-Type: ", Kind(job).value);
    } else {
      assert "" + rest == rest;
      RangeIsNoType(rest);
    }
  }

  lemma RangeIsNoType(t: string)
    requires "Content-Range: bytes " <= t
    ensures Behind(Line(t).0, "Content-Type: ") == None
  {
    LineIsPrefix(t);
    assert t[8] == "Content-Range: bytes "[8] == 'R' && "Content-Type: "[8] == 'T';
  }

  lemma {:induction false} LineIsPrefix(t: string)
    ensures Line(t).0 <= t
  {
    if |t| >= 2 && !(t[0] == '\r' && t[1] == '\n') {
      LineIsPrefix(t[1..]);
    }
  }

  lemma TrailerIsNone()
    ensures ReadHeader("\r\n--THIS_STRING_SEPARATES--\r\n") == None
  {
    assert "\r\n--THIS_STRING_SEPARATES--\r\n"[25] != "\r\n--THIS_STRING_SEPARATES\r\n"[25];
  }

  // ----- Whole responses ------------------------------------------------------------------

  /** The parts a client may expect. */
  predicate Expected(job: Job, ranges: seq<Spec>, parts: seq<Part>)
    requires AllFit(job, ranges)
  {
    && |parts| == |ranges|
    && forall i :: 0 <= i < |ranges| ==>
         && parts[i].kind == Kind(job) && parts[i].start == ranges[i].start && parts[i].stop == ranges[i].stop && parts[i].total == |job.file|
         && parts[i].body == if job.head then "" else job.file[ranges[i].start..ranges[i].stop + 1]
  }

  /** The part of range `r`. */
  function PartOf(job: Job, r: Spec): Part
    requires Fits(job, r)
  {
    Part(Kind(job), r.start, r.stop, |job.file|, Body(job, r))
  }

  lemma PartRead(job: Job, r: Spec, rest: string, parts: seq<Part>)
    requires OneLine(job) && Fits(job, r) && ReadParts(rest, job.head) == Some(parts)
    ensures ReadParts(Flat(PartHeader(job, r)) + (Body(job, r) + rest), job.head) == Some([PartOf(job, r)] + parts)
  {
    hide PartHeader, Flat, ReadHeader, OneLine;
    var body := Body(job, r);
    HeaderRead(job, r, body + rest);
    TrailerIsNone();
    assert (body + rest)[..|body|] == body && (body + rest)[|body|..] == rest;
  }

  lemma ExpectedCons(job: Job, ranges: seq<Spec>, parts: seq<Part>)
    requires ranges != [] && AllFit(job, ranges) && AllFit(job, ranges[1..]) && Expected(job, ranges[1..], parts)
    ensures Expected(job, ranges, [PartOf(job, ranges[0])] + parts)
  {
    hide Kind;
    var all := [PartOf(job, ranges[0])] + parts;
    assert forall i :: 0 < i < |ranges| ==> all[i] == parts[i - 1] && ranges[i] == ranges[1..][i - 1];
  }

  lemma TrailerRead(head: bool)
    ensures ReadParts(TRAILER, head) == Some([])
  {
    assert TRAILER == "\r\n--THIS_STRING_SEPARATES--\r\n";
  }

  lemma NothingExpected(job: Job)
    ensures Expected(job, [], [])
  {
  }

  /** Behind the body of its first range a multipart response reads as the other ranges, in order, each
      with its bytes of the file. */
  lemma {:induction false} PartsRead(job: Job, ranges: seq<Spec>) returns (parts: seq<Part>)
    requires OneLine(job) && job.multipart && ranges != [] && AllFit(job, ranges)
    ensures ReadParts(After(job, ranges), job.head) == Some(parts) && Expected(job, ranges[1..], parts)
    decreases |ranges|
  {
    hide PartHeader, Flat, ReadParts, OneLine, Body, PartOf, Expected;
    if |ranges| == 1 {
      parts := [];
      assert ranges[1..] == [];
      TrailerRead(job.head);
      NothingExpected(job);
    } else {
      var more := PartsRead(job, ranges[1..]);
      parts := [PartOf(job, ranges[1])] + more;
      assert ranges[1..][0] == ranges[1] && After(job, ranges)
          == Flat(PartHeader(job, ranges[1])) + (Body(job, ranges[1]) + After(job, ranges[1..]));
      PartRead(job, ranges[1], After(job, ranges[1..]), more);
      ExpectedCons(job, ranges[1..], more);
    }
  }

  /** The response to a request for several ranges, with its first part header in the buffer. */
  function Opened(job: Job, specs: seq<Spec>, top: string): Send
    requires Storable(specs) && 0 < |job.file| < RangeList.SIGN_BIT && RangeList.FitAll(specs, |job.file|, |specs|) != []
  {
    var first := RangeList.FitAll(specs, |job.file|, |specs|)[0];
    Courses.Begun(job, specs, top + Flat(PartHeader(job, first)))
  }

  /** So a client that has been sent all of a multipart response reads exactly the ranges it began with. */
  lemma ClientReads(job: Job, s: Send, top: string, c: Course) returns (parts: seq<Part>)
    requires OneLine(job) && job.multipart && Sound(job, s) && s.ranges != []
    requires s.produced == top + Flat(PartHeader(job, s.ranges[0]))
    requires Courses.Delivered(job, s, c) && c.over && c.s.status != Dead && c.s.ranges == [] && c.s.pending == ""
    ensures top <= c.s.wire && ReadParts(c.s.wire[|top|..], job.head) == Some(parts) && Expected(job, s.ranges, parts)
  {
    hide PartHeader, Flat, ReadParts, OneLine, After, Body, PartOf, Expected;
    var r, rest := s.ranges[0], After(job, s.ranges);
    var more := PartsRead(job, s.ranges);
    parts := [PartOf(job, r)] + more;
    PartRead(job, r, rest, more);
    ExpectedCons(job, s.ranges, more);
    SentBehind(c.s.wire, top, Flat(PartHeader(job, r)), Body(job, r) + rest);
  }

  lemma SentBehind(wire: string, top: string, header: string, rest: string)
    requires wire == (top + header) + rest
    ensures top <= wire && wire[|top|..] == header + rest
  {
  }

  /** For files that are read: under any schedule, a request that is freed alive and drained with no range
      left has delivered the ranges that fit the file, each as a part of its own. */
  lemma CopyReads(job: Job, specs: seq<Spec>, top: string, visits: seq<Courses.Visit>) returns (parts: seq<Part>)
    requires OneLine(job) && job.multipart && TypeLength(job) <= 145
    requires Storable(specs) && 0 < |job.file| < RangeList.SIGN_BIT && RangeList.FitAll(specs, |job.file|, |specs|) != []
    requires var s := Opened(job, specs, top);
             && s.bufferEnd <= BUFFER_SIZE && Courses.RoomAlong(job, Course(s, false), visits)
             && var c := Courses.Run(job, Course(s, false), visits);
                c.over && c.s.status != Dead && c.s.ranges == [] && c.s.pending == ""
    ensures var c := Courses.Run(job, Course(Opened(job, specs, top), false), visits);
            && top <= c.s.wire && ReadParts(c.s.wire[|top|..], job.head) == Some(parts)
            && Expected(job, RangeList.FitAll(specs, |job.file|, |specs|), parts)
  {
    hide PartHeader, Flat, OneLine, After, Courses.Run, Courses.RoomAlong, Courses.Delivered, ReadParts, Expected, UnderWay;
    var s := Opened(job, specs, top);
    Courses.BegunIsUnderWay(job, specs, top + Flat(PartHeader(job, s.ranges[0])));
    Courses.CopyDelivery(job, s, visits);
    parts := ClientReads(job, s, top, Courses.Run(job, Course(s, false), visits));
  }

  /** For mapped files: the same for the chunk of `init_get` followed by those of `process_get`, in
      every run that keeps the response. */
  lemma GetReads(job: Job, specs: seq<Spec>, top: string, first: Sock, last: Sock, limit: nat, visits: seq<Courses.GetVisit>)
      returns (parts: seq<Part>)
    requires OneLine(job) && job.multipart && TypeLength(job) <= 145
    requires Storable(specs) && 0 < |job.file| < RangeList.SIGN_BIT && RangeList.FitAll(specs, |job.file|, |specs|) != []
    requires var s := Opened(job, specs, top);
             && s.bufferEnd <= BUFFER_SIZE && Sound(job, s) && RoomAfterCopy(job, s)
             && Courses.HarmlessAlong(job, Courses.FirstChunk(job, s, first, last), limit, visits)
             && var c := Courses.GetRun(job, Courses.FirstChunk(job, s, first, last), limit, visits);
                c.over && c.s.status != Dead && c.s.ranges == [] && c.s.pending == ""
    ensures var s := Opened(job, specs, top);
            var c := Courses.GetRun(job, Courses.FirstChunk(job, s, first, last), limit, visits);
            && top <= c.s.wire && ReadParts(c.s.wire[|top|..], job.head) == Some(parts)
            && Expected(job, RangeList.FitAll(specs, |job.file|, |specs|), parts)
  {
    hide PartHeader, Flat, OneLine, After, Courses.GetRun, Courses.HarmlessAlong, Courses.Delivered, ReadParts, Expected, UnderWay,
      Courses.FirstChunk, RoomAfterCopy;
    var s := Opened(job, specs, top);
    Courses.BegunIsUnderWay(job, specs, top + Flat(PartHeader(job, s.ranges[0])));
    Courses.GetCourseDelivery(job, s, first, last, limit, visits);
    parts := ClientReads(job, s, top, Courses.GetRun(job, Courses.FirstChunk(job, s, first, last), limit, visits));
  }
}
