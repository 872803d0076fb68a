/** The two older date formats of section 3.3.1 of RFC 2616, which `date_to_tm` must also accept, and one
    of its own (src/util.c:254-324): what it makes of dates written in them. */
module DateFormats {
  import opened Commons
  import opened HttpDate

  /** Conversions from directive `k` on depend only on the directives from there on. */
  lemma {:induction false} ScanSame(fmt: seq<Directive>, gmt: seq<Directive>, k: nat, s: string)
    requires k <= |fmt| == |gmt| && fmt[k..] == gmt[k..]
    ensures Scan(fmt, k, s) == Scan(gmt, k, s)
    decreases |fmt| - k
  {
    if k < |fmt| {
      assert fmt[k] == fmt[k..][0] == gmt[k..][0] == gmt[k];
      assert fmt[k + 1..] == fmt[k..][1..] == gmt[k..][1..] == gmt[k + 1..];
      match fmt[k] {
        case Int =>
          if ScanInt(s).Some? {
            ScanSame(fmt, gmt, k + 1, ScanInt(s).value.1);
          }
        case Word(width) => ScanSame(fmt, gmt, k + 1, SkipSpace(s)[WordLength(SkipSpace(s), width)..]);
        case Space => ScanSame(fmt, gmt, k + 1, SkipSpace(s));
        case Lit(c) =>
          if s != "" {
            ScanSame(fmt, gmt, k + 1, s[1..]);
          }
      }
    }
  }

  /** The weekday, whatever it is, is skipped up to the first space. */
  lemma {:induction false} WordSkipped(day: string, rest: string)
    requires ' ' !in day
    ensures FirstSpace(day + (" " + rest)) == |day| && (day + (" " + rest))[|day|..] == " " + rest
  {
    var s := day + (" " + rest);
    if day != "" {
      assert s[1..] == day[1..] + (" " + rest) && s[0] == day[0];
      WordSkipped(day[1..], rest);
    }
  }

  // ----- RFC 1036 -----------------------------------------------------------------

  /** "06-Nov-94 08:49:37 GMT" */
  function Rfc1036(tm: Tm): string
    requires InRange(tm)
  {
    TwoDigits(tm.mday) + ("-" + (MonthName(tm.mon) + ("-" + (TwoDigits(Year(tm) % 100) + (" " + TimeTail(tm))))))
  }

  /** The first format stops behind the day, within the name of the month. */
  lemma NotRfc1123(tm: Tm)
    requires InRange(tm)
    ensures !AllSix(Scan(RFC1123, 0, " " + Rfc1036(tm)))
  {
    hide TwoDigits, TimeTail, LastDigits;
    var y := "-" + (TwoDigits(Year(tm) % 100) + (" " + TimeTail(tm)));
    var m := "-" + (MonthName(tm.mon) + y);
    TwoDigitsAreLast(tm.mday);
    ScanAfterSpace(tm.mday, 2, m);
    MonthBehindHyphen(tm.mon, y);
    assert Scan(RFC1123, 0, " " + Rfc1036(tm)).nums == [tm.mday] + Scan(RFC1123, 1, m).nums;
  }

  lemma MonthBehindHyphen(m: int, rest: string)
    requires 0 <= m < 12
    ensures Scan(RFC1123, 1, "-" + (MonthName(m) + rest)).nums == []
  {
    var s := "-" + (MonthName(m) + rest);
    assert SkipSpace(s) == s;
    assert WordLength(s[1..][1..], 1) == 1;
    assert WordLength(s[1..], 2) == 2;
    assert WordLength(s, 3) == 3;
    assert s[3..][0] == MonthName(m)[2];
    assert ScanInt(s[3..]) == None;
    assert Scan(RFC1123, 3, s[3..]).nums == [];
  }

  lemma ScanRfc1036(tm: Tm)
    requires InRange(tm)
    ensures Scan(RFC1036, 0, " " + Rfc1036(tm))
         == Scanned([tm.mday, Year(tm) % 100, tm.hour, tm.min, tm.sec], [MonthName(tm.mon)])
  {
    hide TwoDigits, TimeTail, LastDigits;
    var z := " " + TimeTail(tm);
    var yy := Year(tm) % 100;
    var y := TwoDigits(yy) + z;
    var m := MonthName(tm.mon) + ("-" + y);
    ScanTime(tm);
    ScanSame(RFC1036, RFC1123, 5, z);
    TwoDigitsAreLast(yy);
    ScanPadded(yy, 2, z);
    assert Scan(RFC1036, 4, y) == Scanned([yy, tm.hour, tm.min, tm.sec], []);
    assert ("-" + y)[1..] == y && ("-" + m)[1..] == m;
    assert Scan(RFC1036, 3, "-" + y) == Scan(RFC1036, 4, y);
    MonthWord(tm.mon, "-" + y);
    TwoDigitsAreLast(tm.mday);
    ScanAfterSpace(tm.mday, 2, "-" + m);
  }

  lemma MonthWord(m: int, rest: string)
    requires 0 <= m < 12
    ensures var w := MonthName(m) + rest; SkipSpace(w) == w && WordLength(w, 3) == 3 && w[..3] == MonthName(m) && w[3..] == rest
  {
    var w := MonthName(m) + rest;
    assert WordLength(w[1..][1..], 1) == 1;
    assert WordLength(w[1..], 2) == 2;
  }

  lemma MonthRead(m: int)
    requires 0 <= m < 12
    ensures Month2Int(MonthName(m)) == m
  {
  }

  /** A date in the format of RFC 1036 has its fields read back, with a year of 1970 to 2020 that ends in its
      two digits; there is none for 21 to 69. */
  lemma Rfc1036Parses(tm: Tm, day: string)
    requires InRange(tm) && ' ' !in day
    ensures var yy := Year(tm) % 100;
            DateToTm(day + (" " + Rfc1036(tm)))
            == if 20 < yy < 70 then None else Some(tm.(wday := 0, year := if yy < 70 then yy + 100 else yy))
  {
    hide Scan, Rfc1036, Month2Int;
    WordSkipped(day, Rfc1036(tm));
    NotRfc1123(tm);
    ScanRfc1036(tm);
    MonthRead(tm.mon);
  }

  // ----- asctime ------------------------------------------------------------------

  /** A day of the month in two places. */
  function PaddedDay(d: int): string
    requires 1 <= d <= 31
  {
    if d < 10 then " " + LastDigits(d, 1) else LastDigits(d, 2)
  }

  function Clock(tm: Tm): string
    requires InRange(tm) && 1000 <= Year(tm) <= 9999
  {
    TwoDigits(tm.hour) + (":" + (TwoDigits(tm.min) + (":" + (TwoDigits(tm.sec) + (" " + LastDigits(Year(tm), 4))))))
  }

  /** "Nov  6 08:49:37 1994" */
  function Asctime(tm: Tm): string
    requires InRange(tm) && 1000 <= Year(tm) <= 9999
  {
    MonthName(tm.mon) + (" " + (PaddedDay(tm.mday) + (" " + Clock(tm))))
  }

  /** It begins with no number. */
  lemma NoNumberFirst(tm: Tm)
    requires InRange(tm) && 1000 <= Year(tm) <= 9999
    ensures Scan(RFC1123, 0, " " + Asctime(tm)) == Scan(RFC1036, 0, " " + Asctime(tm)) == Scanned([], [])
  {
    hide PaddedDay, Clock;
    var a := Asctime(tm);
    assert a[0] == MonthName(tm.mon)[0];
    assert (" " + a)[1..] == a && SkipSpace(a) == a;
    assert ScanInt(" " + a) == None;
  }

  lemma DayRead(d: int, rest: string)
    requires 1 <= d <= 31 && rest != "" && !IsDigit(rest[0])
    ensures ScanInt(PaddedDay(d) + rest) == Some((d, rest)) && ScanInt(" " + (PaddedDay(d) + rest)) == Some((d, rest))
  {
    hide LastDigits;
    assert Pow10(1) == 10 && Pow10(2) == 100;
    var k := if d < 10 then 1 else 2;
    var s := PaddedDay(d) + rest;
    if d < 10 {
      assert s == " " + (LastDigits(d, 1) + rest);
    }
    ScanPadded(d, k, rest);
    ScanAfterSpace(d, k, rest);
    SpaceSkipped(s);
  }

  lemma SpaceSkipped(s: string)
    ensures ScanInt(" " + s) == ScanInt(s) && SkipSpace(" " + s) == SkipSpace(s)
  {
    assert (" " + s)[1..] == s;
  }

  lemma ClockPart(k: nat, n: int, rest: string, r: Scanned)
    requires k < |ASCTIME| && ASCTIME[k] == Int && 0 <= n < 100
    requires rest != "" && !IsDigit(rest[0]) && Scan(ASCTIME, k + 1, rest) == r
    ensures Scan(ASCTIME, k, TwoDigits(n) + rest) == r.(nums := [n] + r.nums)
  {
    TwoDigitsAreLast(n);
    ScanPadded(n, 2, rest);
  }

  /** A number at the end of a text. */
  lemma LastNumber(y: nat, k: nat)
    requires k > 0 && y < Pow10(k)
    ensures var s := LastDigits(y, k); ScanInt(s) == Some((y, "")) && SkipSpace(s) == s
  {
    hide LastDigits;
    var s := LastDigits(y, k);
    FirstIsDigit(y, k);
    assert s + "" == s;
    ScanLastDigits(0, y, k, "");
  }

  lemma ScanLastYear(y: int)
    requires 1000 <= y <= 9999
    ensures Scan(ASCTIME, 9, " " + LastDigits(y, 4)) == Scanned([y], [])
  {
    hide LastDigits, ScanInt, SkipSpace;
    var s := LastDigits(y, 4);
    assert Pow10(2) == 100 && Pow10(4) == 10000;
    LastNumber(y, 4);
    SpaceSkipped(s);
    assert Scan(ASCTIME, 11, "") == Scanned([], []);
    assert Scan(ASCTIME, 10, s) == Scanned([y], []);
  }

  lemma ScanClockAndYear(tm: Tm)
    requires InRange(tm) && 1000 <= Year(tm) <= 9999
    ensures Scan(ASCTIME, 4, Clock(tm)) == Scanned([tm.hour, tm.min, tm.sec, Year(tm)], [])
  {
    hide TwoDigits, LastDigits;
    var y := " " + LastDigits(Year(tm), 4);
    var s2 := TwoDigits(tm.sec) + y;
    var s4 := TwoDigits(tm.min) + (":" + s2);
    ScanLastYear(Year(tm));
    ClockPart(8, tm.sec, y, Scanned([Year(tm)], []));
    assert (":" + s2)[1..] == s2;
    ClockPart(6, tm.min, ":" + s2, Scanned([tm.sec, Year(tm)], []));
    assert (":" + s4)[1..] == s4;
    ClockPart(4, tm.hour, ":" + s4, Scanned([tm.min, tm.sec, Year(tm)], []));
  }

  lemma ScanAsctime(tm: Tm)
    requires InRange(tm) && 1000 <= Year(tm) <= 9999
    ensures Scan(ASCTIME, 0, " " + Asctime(tm))
         == Scanned([tm.mday, tm.hour, tm.min, tm.sec, Year(tm)], [MonthName(tm.mon)])
  {
    hide PaddedDay, Clock;
    var t := " " + Clock(tm);
    var d := " " + (PaddedDay(tm.mday) + t);
    ScanClockAndYear(tm);
    ClockFirst(tm);
    SpaceSkipped(Clock(tm));
    assert Scan(ASCTIME, 3, t) == Scan(ASCTIME, 4, Clock(tm));
    DayRead(tm.mday, t);
    SpaceSkipped(PaddedDay(tm.mday) + t);
    DayBehindSpaces(d, tm.mday, t);
    MonthWord(tm.mon, d);
    SpaceSkipped(Asctime(tm));
  }

  lemma ClockFirst(tm: Tm)
    requires InRange(tm) && 1000 <= Year(tm) <= 9999
    ensures SkipSpace(Clock(tm)) == Clock(tm)
  {
    assert Clock(tm)[0] == TwoDigits(tm.hour)[0];
  }

  lemma DayBehindSpaces(s: string, d: int, rest: string)
    requires ScanInt(s) == Some((d, rest))
    ensures ScanInt(SkipSpace(s)) == Some((d, rest))
    ensures var r := Scan(ASCTIME, 3, rest); Scan(ASCTIME, 1, s) == r.(nums := [d] + r.nums)
  {
    SkipTwice(s);
  }

  lemma SkipTwice(s: string)
    ensures SkipSpace(SkipSpace(s)) == SkipSpace(s)
  {
  }

  /** A date in the format of `asctime` has its fields read back for 1970 to 2020; any other year of four
      digits is refused. */
  lemma AsctimeParses(tm: Tm, day: string)
    requires InRange(tm) && 1000 <= Year(tm) <= 9999 && ' ' !in day
    ensures DateToTm(day + (" " + Asctime(tm))) == if 1970 <= Year(tm) <= 2020 then Some(tm.(wday := 0)) else None
  {
    hide Scan, Asctime, Month2Int;
    WordSkipped(day, Asctime(tm));
    NoNumberFirst(tm);
    ScanAsctime(tm);
    MonthRead(tm.mon);
  }

  // ----- Without a weekday --------------------------------------------------------

  /** No number begins with this character. */
  predicate NoNumber(c: char) { !IsDigit(c) && c != '+' && c != '-' }

  function FullName(m: int): (name: string)
    requires 0 <= m < 12
    ensures 3 <= |name| <= 9 && (m == 4 ==> |name| == 3)
    ensures m != 4 ==> |name| > 3 && !IsSpace(name[3]) && NoNumber(name[3])
  {
    match m
    case 0 => "January" case 1 => "February" case 2 => "March" case 3 => "April" case 4 => "May" case 5 => "June"
    case 6 => "July" case 7 => "August" case 8 => "September" case 9 => "October" case 10 => "November" case _ => "December"
  }

  /** "31 September 2000 23:59:59 GMT", which is in no standard. */
  function NonStandard(tm: Tm): string
    requires InRange(tm) && 1000 <= Year(tm) <= 9999
  {
    TwoDigits(tm.mday) + (" " + (FullName(tm.mon) + YearAndTime(tm)))
  }

  function YearAndTime(tm: Tm): string
    requires InRange(tm) && 1000 <= Year(tm) <= 9999
  {
    " " + (LastDigits(Year(tm), 4) + (" " + TimeTail(tm)))
  }

  lemma NameHasNoSpace(m: int)
    requires 0 <= m < 12
    ensures (forall i :: 0 <= i < |FullName(m)| ==> !IsSpace(FullName(m)[i])) && Month2Int(FullName(m)) == m
    ensures NoNumber(FullName(m)[0])
  {
  }

  lemma {:induction false} WordIs(w: string, rest: string, width: nat)
    requires |w| <= width && (forall i :: 0 <= i < |w| ==> !IsSpace(w[i])) && (rest == "" || IsSpace(rest[0]))
    ensures WordLength(w + rest, width) == |w|
  {
    if w == "" {
      assert w + rest == rest;
    } else {
      assert (w + rest)[1..] == w[1..] + rest;
      WordIs(w[1..], rest, width - 1);
    }
  }

  lemma NoInt(s: string)
    requires s != "" && !IsSpace(s[0]) && NoNumber(s[0])
    ensures ScanInt(s) == None && ScanInt(" " + s) == None && SkipSpace(" " + s) == s && SkipSpace(s) == s
  {
    assert (" " + s)[1..] == s;
  }

  /** A time that is followed by a zone instead of a year. */
  lemma NoYearBehind(tm: Tm)
    requires InRange(tm) && 1000 <= Year(tm) <= 9999
    ensures |Scan(ASCTIME, 1, YearAndTime(tm)).nums| == 4
  {
    hide TwoDigits, LastDigits;
    var s2 := TwoDigits(tm.sec) + " GMT";
    var s4 := TwoDigits(tm.min) + (":" + s2);
    var y := LastDigits(Year(tm), 4) + (" " + TimeTail(tm));
    NoInt("GMT");
    assert Scan(ASCTIME, 10, "GMT") == Scanned([], []);
    assert Scan(ASCTIME, 9, " GMT") == Scanned([], []);
    ClockPart(8, tm.sec, " GMT", Scanned([], []));
    assert (":" + s2)[1..] == s2;
    ClockPart(6, tm.min, ":" + s2, Scanned([tm.sec], []));
    assert (":" + s4)[1..] == s4;
    ClockPart(4, tm.hour, ":" + s4, Scanned([tm.min, tm.sec], []));
    LeadingSpace(tm);
    assert Scan(ASCTIME, 3, " " + TimeTail(tm)) == Scan(ASCTIME, 4, TimeTail(tm));
    assert Pow10(2) == 100 && Pow10(4) == 10000;
    FirstIsDigit(Year(tm), 4);
    assert y[0] == LastDigits(Year(tm), 4)[0];
    SpaceSkipped(y);
    ScanPadded(Year(tm), 4, " " + TimeTail(tm));
    assert Scan(ASCTIME, 2, y) == Scanned([Year(tm), tm.hour, tm.min, tm.sec], []);
  }

  lemma NotAsctime(tm: Tm)
    requires InRange(tm) && 1000 <= Year(tm) <= 9999
    ensures var t := " " + (FullName(tm.mon) + YearAndTime(tm));
            Scan(RFC1123, 0, t) == Scan(RFC1036, 0, t) == Scanned([], []) && !AllSix(Scan(ASCTIME, 0, t))
  {
    hide YearAndTime, FullName;
    var name, rest := FullName(tm.mon), YearAndTime(tm);
    var s := name + rest;
    NameHasNoSpace(tm.mon);
    NoInt(s);
    ThreeOf(s);
    if tm.mon == 4 {
      NoYearBehind(tm);
      assert s[3..] == rest;
    } else {
      NoInt(s[3..]);
      assert Scan(ASCTIME, 1, s[3..]).nums == [];
    }
  }

  lemma ThreeOf(s: string)
    requires |s| >= 3 && forall i :: 0 <= i < 3 ==> !IsSpace(s[i])
    ensures WordLength(s, 3) == 3
  {
    assert WordLength(s[1..][1..], 1) == 1;
    assert WordLength(s[1..], 2) == 2;
  }

  lemma ScanNonStandard(tm: Tm)
    requires InRange(tm) && 1000 <= Year(tm) <= 9999
    ensures Scan(NON_STANDARD, 0, NonStandard(tm))
         == Scanned([tm.mday, Year(tm), tm.hour, tm.min, tm.sec], [FullName(tm.mon)])
  {
    hide TwoDigits, LastDigits, TimeTail, FullName;
    var name, rest := FullName(tm.mon), YearAndTime(tm);
    var s := name + rest;
    ScanYear(tm);
    ScanSame(NON_STANDARD, RFC1123, 3, rest);
    NameHasNoSpace(tm.mon);
    WordIs(name, rest, 10);
    NoInt(s);
    assert s[..|name|] == name && s[|name|..] == rest;
    assert Scan(NON_STANDARD, 2, s) == Scanned([Year(tm), tm.hour, tm.min, tm.sec], [name]);
    assert Scan(NON_STANDARD, 1, " " + s) == Scan(NON_STANDARD, 2, s);
    TwoDigitsAreLast(tm.mday);
    ScanPadded(tm.mday, 2, " " + s);
  }

  lemma NoSpaceInDigits(n: int)
    requires 0 <= n < 100
    ensures ' ' !in TwoDigits(n)
  {
  }

  /** So has one that begins with the day and spells the month out. */
  lemma NonStandardParses(tm: Tm)
    requires InRange(tm) && 1000 <= Year(tm) <= 9999
    ensures DateToTm(NonStandard(tm)) == if 1970 <= Year(tm) <= 2020 then Some(tm.(wday := 0)) else None
  {
    hide Scan, Month2Int, YearAndTime, FullName, TwoDigits;
    NoSpaceInDigits(tm.mday);
    WordSkipped(TwoDigits(tm.mday), FullName(tm.mon) + YearAndTime(tm));
    NotAsctime(tm);
    ScanNonStandard(tm);
    NameHasNoSpace(tm.mon);
  }
}
