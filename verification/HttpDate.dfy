/** HTTP dates (src/util.c): the RFC 1123 printer, the sscanf-based parser and the
    field-by-field If-Modified-Since comparison, tied to seconds since the epoch. */
module HttpDate {
  import opened Commons

  // ----- The civil calendar behind gmtime -----------------------------------------

  /** `struct tm`: `year` counts from 1900, `mon` from 0, `wday` from Sunday. */
  datatype Tm = Tm(sec: int, min: int, hour: int, mday: int, mon: int, year: int, wday: int)

  predicate Leap(y: int) {
    y % 4 == 0 && (y % 100 != 0 || y % 400 == 0)
  }

  function MonthDays(y: int, m: int): (d: int)
    requires 0 <= m < 12
    ensures 28 <= d <= 31
  {
    if m == 1 then (if Leap(y) then 29 else 28)
    else if m in {3, 5, 8, 10} then 30
    else 31
  }

  /** Days from 1 January 1970 to 1 January of year `y`. */
  function YearStart(y: int): int {
    365 * (y - 1970) + (y - 1) / 4 - (y - 1) / 100 + (y - 1) / 400 - 477
  }

  /** Days from 1 January to the first of month `m`; `m == 12` gives the whole year. */
  function MonthStart(y: int, m: int): int
    requires 0 <= m <= 12
  {
    if m == 0 then 0 else MonthStart(y, m - 1) + MonthDays(y, m - 1)
  }

  predicate InRange(tm: Tm) {
    && 0 <= tm.sec < 60 && 0 <= tm.min < 60 && 0 <= tm.hour < 24
    && 0 <= tm.mon < 12 && 1 <= tm.mday <= 31 && 0 <= tm.wday < 7
  }

  predicate ValidTm(tm: Tm) {
    InRange(tm) && tm.mday <= MonthDays(tm.year + 1900, tm.mon)
  }

  function DayNumber(tm: Tm): int
    requires 0 <= tm.mon < 12
  {
    YearStart(tm.year + 1900) + MonthStart(tm.year + 1900, tm.mon) + tm.mday - 1
  }

  /** Seconds since the epoch of a broken-down UTC time. */
  function Seconds(tm: Tm): int
    requires 0 <= tm.mon < 12
  {
    86400 * DayNumber(tm) + 3600 * tm.hour + 60 * tm.min + tm.sec
  }

  lemma YearLength(y: int)
    ensures MonthStart(y, 12) == if Leap(y) then 366 else 365
    ensures YearStart(y + 1) == YearStart(y) + MonthStart(y, 12)
  {
    hide YearStart, Leap;
    MonthsOfYear(y);
    LeapDays(y);
  }

  lemma MonthsOfYear(y: int)
    ensures MonthStart(y, 12) == if Leap(y) then 366 else 365
  {
    hide Leap;
    assert MonthStart(y, 1) == MonthStart(y, 0) + 31;
    assert MonthStart(y, 3) == MonthStart(y, 2) + 31;
    assert MonthStart(y, 5) == MonthStart(y, 4) + 31;
    assert MonthStart(y, 7) == MonthStart(y, 6) + 31;
    assert MonthStart(y, 9) == MonthStart(y, 8) + 30;
    assert MonthStart(y, 11) == MonthStart(y, 10) + 30;
  }

  lemma Fours(y: int)
    ensures y / 4 == (y - 1) / 4 + if y % 4 == 0 then 1 else 0
  {
  }

  lemma Hundreds(y: int)
    ensures y / 100 == (y - 1) / 100 + if y % 100 == 0 then 1 else 0
  {
  }

  lemma FourHundreds(y: int)
    ensures y / 400 == (y - 1) / 400 + if y % 400 == 0 then 1 else 0
  {
  }

  lemma FourCenturies(y: int)
    requires y % 400 == 0
    ensures y % 100 == 0
  {
    var z := 4 * (y / 400) - y / 100;
    assert y % 100 == 100 * z;
  }

  lemma Century(y: int)
    requires y % 100 == 0
    ensures y % 4 == 0
  {
    var z := 25 * (y / 100) - y / 4;
    assert y % 4 == 4 * z;
  }

  lemma LeapDays(y: int)
    ensures YearStart(y + 1) == YearStart(y) + if Leap(y) then 366 else 365
  {
    Fours(y);
    Hundreds(y);
    FourHundreds(y);
    if y % 400 == 0 {
      FourCenturies(y);
    }
    if y % 100 == 0 {
      Century(y);
    }
  }

  /** The year holding day `d`, searched for from year `y`. */
  function YearOf(d: int, y: int): (r: int)
    ensures YearStart(r) <= d < YearStart(r + 1)
    decreases if d < YearStart(y) then YearStart(y) - d
              else if d >= YearStart(y + 1) then d - YearStart(y + 1) + 1 else 0
  {
    YearLength(y - 1); YearLength(y); YearLength(y + 1);
    if d < YearStart(y) then YearOf(d, y - 1)
    else if d >= YearStart(y + 1) then YearOf(d, y + 1)
    else y
  }

  /** The month holding day `yd` of year `y`, searched for from month `m`. */
  function MonthOf(y: int, yd: int, m: int): (r: int)
    requires 0 <= m < 12 && MonthStart(y, m) <= yd < MonthStart(y, 12)
    ensures 0 <= r < 12 && MonthStart(y, r) <= yd < MonthStart(y, r + 1)
    decreases 12 - m
  {
    if yd < MonthStart(y, m + 1) then m else MonthOf(y, yd, m + 1)
  }

  /** The calendar date of day `d`. */
  function DateOf(d: int): (r: (int, int, int))
    ensures 0 <= r.1 < 12 && 1 <= r.2 <= MonthDays(r.0, r.1)
    ensures YearStart(r.0) + MonthStart(r.0, r.1) + r.2 - 1 == d
  {
    var y := YearOf(d, 1970);
    YearLength(y);
    var m := MonthOf(y, d - YearStart(y), 0);
    (y, m, d - YearStart(y) - MonthStart(y, m) + 1)
  }

  /** `gmtime`: 1 January 1970 was a Thursday. */
  function Gmtime(t: int): (tm: Tm)
    ensures ValidTm(tm) && Seconds(tm) == t
  {
    GmtimeLaw(t);
    Fields(t)
  }

  /** The fields of an instant. */
  function Fields(t: int): Tm {
    var (y, m, day) := DateOf(t / 86400);
    var s := t % 86400;
    Tm(s % 60, s / 60 % 60, s / 3600, day, m, y - 1900, (t / 86400 + 4) % 7)
  }

  lemma TimeOfDay(s: int)
    requires 0 <= s < 86400
    ensures s == 3600 * (s / 3600) + 60 * (s / 60 % 60) + s % 60
    ensures 0 <= s / 3600 < 24 && 0 <= s / 60 % 60 < 60 && 0 <= s % 60 < 60
  {
  }

  lemma GmtimeLaw(t: int)
    ensures ValidTm(Fields(t)) && Seconds(Fields(t)) == t
  {
    hide YearStart, MonthStart, MonthDays, DateOf;
    TimeOfDay(t % 86400);
    assert t == 86400 * (t / 86400) + t % 86400;
  }

  lemma {:induction false} YearStartMonotone(x: int, y: int)
    requires x <= y
    ensures YearStart(x) <= YearStart(y)
    decreases y - x
  {
    if x < y {
      YearLength(x);
      YearStartMonotone(x + 1, y);
    }
  }

  lemma {:induction false} MonthStartMonotone(y: int, m: int, n: int)
    requires 0 <= m <= n <= 12
    ensures MonthStart(y, m) <= MonthStart(y, n)
    decreases n
  {
    if m < n {
      MonthStartMonotone(y, m, n - 1);
    }
  }

  lemma DayWithinMonth(tm: Tm)
    requires ValidTm(tm)
    ensures YearStart(tm.year + 1900) + MonthStart(tm.year + 1900, tm.mon) <= DayNumber(tm)
    ensures DayNumber(tm) < YearStart(tm.year + 1900) + MonthStart(tm.year + 1900, tm.mon + 1)
    ensures YearStart(tm.year + 1900) <= DayNumber(tm) < YearStart(tm.year + 1901)
  {
    var y := tm.year + 1900;
    MonthStartMonotone(y, 0, tm.mon);
    MonthStartMonotone(y, tm.mon + 1, 12);
    YearLength(y);
  }

  // ----- Comparing field by field -------------------------------------------------

  /** The comparison at the end of `modified_since`: the first unequal field decides. */
  predicate FieldsLater(file: Tm, parsed: Tm) {
    if file.year != parsed.year then file.year > parsed.year
    else if file.mon != parsed.mon then file.mon > parsed.mon
    else if file.mday != parsed.mday then file.mday > parsed.mday
    else if file.hour != parsed.hour then file.hour > parsed.hour
    else if file.min != parsed.min then file.min > parsed.min
    else file.sec > parsed.sec
  }

  lemma EarlierMonthEarlierDay(a: Tm, b: Tm)
    requires ValidTm(a) && ValidTm(b)
    requires a.year < b.year || (a.year == b.year && a.mon < b.mon)
    ensures DayNumber(a) < DayNumber(b)
  {
    DayWithinMonth(a);
    DayWithinMonth(b);
    if a.year < b.year {
      YearStartMonotone(a.year + 1901, b.year + 1900);
    } else {
      MonthStartMonotone(a.year + 1900, a.mon + 1, b.mon);
    }
  }

  /** Comparing calendar fields is comparing instants, across leap years and month lengths. */
  lemma FieldsLaterIsLater(a: Tm, b: Tm)
    requires ValidTm(a) && ValidTm(b)
    ensures FieldsLater(a, b) <==> Seconds(a) > Seconds(b)
  {
    if a.year != b.year || a.mon != b.mon {
      if a.year < b.year || (a.year == b.year && a.mon < b.mon) {
        EarlierMonthEarlierDay(a, b);
      } else {
        EarlierMonthEarlierDay(b, a);
      }
    }
  }

  // ----- The calendar, day by day -------------------------------------------------

  /** The last day of month `m`, from 0, of year `y`. */
  function LastDay(y: int, m: int): int {
    match m
    case 1 => if y % 400 == 0 || (y % 4 == 0 && y % 100 != 0) then 29 else 28
    case 3 => 30 case 5 => 30 case 8 => 30 case 10 => 30
    case _ => 31
  }

  /** The same time of the next day. */
  function Tomorrow(tm: Tm): Tm {
    var next := tm.(wday := if tm.wday == 6 then 0 else tm.wday + 1);
    if tm.mday < LastDay(tm.year + 1900, tm.mon) then next.(mday := tm.mday + 1)
    else if tm.mon < 11 then next.(mday := 1, mon := tm.mon + 1)
    else next.(mday := 1, mon := 0, year := tm.year + 1)
  }

  lemma TomorrowIsLater(tm: Tm)
    requires ValidTm(tm)
    ensures ValidTm(Tomorrow(tm)) && Seconds(Tomorrow(tm)) == Seconds(tm) + 86400
  {
    hide YearStart;
    YearLength(tm.year + 1900);
  }

  lemma SameInstant(a: Tm, b: Tm)
    requires ValidTm(a) && ValidTm(b) && Seconds(a) == Seconds(b)
    ensures a.(wday := 0) == b.(wday := 0)
  {
    hide Seconds;
    FieldsLaterIsLater(a, b);
    FieldsLaterIsLater(b, a);
  }

  lemma NextWeekday(d: int)
    ensures (d + 5) % 7 == if (d + 4) % 7 == 6 then 0 else (d + 4) % 7 + 1
  {
  }

  /** The broken-down time at the epoch and from one day to the next, hence at every instant. */
  lemma CalendarExactly(t: int)
    ensures Gmtime(0) == Tm(0, 0, 0, 1, 0, 70, 4) && Gmtime(t + 86400) == Tomorrow(Gmtime(t))
  {
    hide Seconds, Tomorrow, DateOf;
    EpochSeconds();
    SameInstant(Gmtime(0), Tm(0, 0, 0, 1, 0, 70, 4));
    TomorrowIsLater(Gmtime(t));
    SameInstant(Gmtime(t + 86400), Tomorrow(Gmtime(t)));
    NextWeekday(t / 86400);
    TomorrowsWeekday(Gmtime(t));
    assert (t + 86400) / 86400 == t / 86400 + 1;
  }

  lemma TomorrowsWeekday(tm: Tm)
    ensures Tomorrow(tm).wday == if tm.wday == 6 then 0 else tm.wday + 1
  {
  }

  lemma EpochSeconds()
    ensures ValidTm(Tm(0, 0, 0, 1, 0, 70, 4)) && Seconds(Tm(0, 0, 0, 1, 0, 70, 4)) == 0
  {
  }

  // ----- Printing -----------------------------------------------------------------

  const DAYS := ["Sun,", "Mon,", "Tue,", "Wed,", "Thu,", "Fri,", "Sat,"]
  const MONTHS := ["Jan ", "Feb ", "Mar ", "Apr ", "May ", "Jun ", "Jul ", "Aug ", "Sep ", "Oct ", "Nov ", "Dec "]

  function Digit(n: int): char
    requires 0 <= n < 10
  {
    '0' + n as char
  }

  function TwoDigits(n: int): string
    requires 0 <= n < 100
  {
    [Digit(n / 10), Digit(n % 10)]
  }

  function Year(tm: Tm): int { tm.year + 1900 }

  /** What remains of the date after the weekday: the part the parser looks at. */
  function DateTail(tm: Tm): string
    requires InRange(tm) && 1000 <= Year(tm) <= 9999
  {
    " " + (TwoDigits(tm.mday) + (" " + (MONTHS[tm.mon] + (LastDigits(Year(tm), 4) + (" " + TimeTail(tm))))))
  }

  function TimeTail(tm: Tm): string
    requires InRange(tm)
  {
    TwoDigits(tm.hour) + (":" + (TwoDigits(tm.min) + (":" + (TwoDigits(tm.sec) + " GMT"))))
  }

  /** "Sun, 06 Nov 1994 08:49:37 GMT", section 3.3.1 of RFC 2616. */
  function Rfc1123(tm: Tm): string
    requires InRange(tm) && 1000 <= Year(tm) <= 9999
  {
    DAYS[tm.wday] + DateTail(tm)
  }

  /** The number that two digits write. */
  function NumberAt(s: string, i: nat): int
    requires i + 2 <= |s|
  {
    10 * (s[i] as int - '0' as int) + (s[i + 1] as int - '0' as int)
  }

  /** Of the days from day 0 on, which was a Thursday. */
  function DayName(d: int): (name: string)
    requires 0 <= d < 7
    ensures |name| == 3
  {
    match d case 0 => "Thu" case 1 => "Fri" case 2 => "Sat" case 3 => "Sun" case 4 => "Mon" case 5 => "Tue" case _ => "Wed"
  }

  function MonthName(m: int): (name: string)
    requires 0 <= m < 12
    ensures |name| == 3
  {
    match m
    case 0 => "Jan" case 1 => "Feb" case 2 => "Mar" case 3 => "Apr" case 4 => "May" case 5 => "Jun"
    case 6 => "Jul" case 7 => "Aug" case 8 => "Sep" case 9 => "Oct" case 10 => "Nov" case _ => "Dec"
  }

  /** What is printed, character by character, at second `t`. */
  lemma PrintedFields(t: int)
    requires 1000 <= Year(Gmtime(t)) <= 9999
    ensures var tm, s := Gmtime(t), Rfc1123(Gmtime(t));
            && |s| == 29 && s[..3] == DayName(t / 86400 % 7) && s[8..11] == MonthName(tm.mon)
            && s[3..5] == ", " && s[7] == s[11] == s[16] == ' ' && s[19] == s[22] == ':' && s[25..] == " GMT"
            && NumberAt(s, 5) == tm.mday && 100 * NumberAt(s, 12) + NumberAt(s, 14) == tm.year + 1900
            && 3600 * NumberAt(s, 17) + 60 * NumberAt(s, 20) + NumberAt(s, 23) == t % 86400
  {
    hide Gmtime, DayName, MonthName, Rfc1123, NumberAt;
    GmtimeIsFields(t);
    Positions(Gmtime(t));
    FirstFour(Rfc1123(Gmtime(t)), DayName(t / 86400 % 7));
  }

  lemma FirstFour(s: string, name: string)
    requires |name| == 3 && |s| > 4 && s[..4] == name + "," && s[4] == ' '
    ensures s[..3] == name && s[3..5] == ", "
  {
    assert s[..3] == s[..4][..3] && s[3] == s[..4][3];
  }

  lemma GmtimeIsFields(t: int)
    ensures var tm := Gmtime(t);
            && InRange(tm) && DAYS[tm.wday] == DayName(t / 86400 % 7) + ","
            && 3600 * tm.hour + 60 * tm.min + tm.sec == t % 86400
  {
    hide DateOf, DayName;
    TimeOfDay(t % 86400);
    FromThursday(t / 86400);
    DayNames(t / 86400 % 7);
  }

  lemma FromThursday(d: int)
    ensures (d % 7 + 4) % 7 == (d + 4) % 7
  {
  }

  lemma DayNames(d: int)
    requires 0 <= d < 7
    ensures DAYS[(d + 4) % 7] == DayName(d) + ","
  {
  }

  lemma MonthNames(m: int)
    requires 0 <= m < 12
    ensures MONTHS[m] == MonthName(m) + " "
  {
  }

  lemma FourDigits(y: int)
    requires 1000 <= y <= 9999
    ensures var s := LastDigits(y, 4); 100 * NumberAt(s, 0) + NumberAt(s, 2) == y
  {
    assert LastDigits(y, 4) == LastDigits(y / 10, 3) + [Digit(y % 10)];
    assert LastDigits(y / 10, 3) == LastDigits(y / 100, 2) + [Digit(y / 10 % 10)];
    assert LastDigits(y / 100, 2) == LastDigits(y / 1000, 1) + [Digit(y / 100 % 10)];
    assert LastDigits(y / 1000, 1) == LastDigits(y / 10000, 0) + [Digit(y / 1000 % 10)];
  }

  lemma Positions(tm: Tm)
    requires InRange(tm) && 1000 <= Year(tm) <= 9999
    ensures var s := Rfc1123(tm);
            && |s| == 29 && s[..4] == DAYS[tm.wday] && s[8..11] == MonthName(tm.mon)
            && s[4] == s[7] == s[11] == s[16] == ' ' && s[19] == s[22] == ':' && s[25..] == " GMT"
            && NumberAt(s, 5) == tm.mday && 100 * NumberAt(s, 12) + NumberAt(s, 14) == Year(tm)
            && NumberAt(s, 17) == tm.hour && NumberAt(s, 20) == tm.min && NumberAt(s, 23) == tm.sec
  {
    hide LastDigits, MonthName, NumberAt, TimeTail;
    FourDigits(Year(tm));
    MonthNames(tm.mon);
    var s, y, z := Rfc1123(tm), LastDigits(Year(tm), 4), TimeTail(tm);
    TimePositions(tm);
    assert s[12..16] == y && s[17..] == z && s[5..7] == TwoDigits(tm.mday);
    assert s[8..12] == MONTHS[tm.mon] && s[8..12][..3] == s[8..11];
    NumberWithin(s, 12, y, 0);
    NumberWithin(s, 12, y, 2);
    NumberWithin(s, 17, z, 0);
    NumberWithin(s, 17, z, 3);
    NumberWithin(s, 17, z, 6);
    NumberWithin(s, 5, TwoDigits(tm.mday), 0);
    TwoDigitsRead(tm.mday);
    assert s[19] == z[2] && s[22] == z[5] && s[25..] == z[8..];
  }

  lemma TwoDigitsRead(n: int)
    requires 0 <= n < 100
    ensures NumberAt(TwoDigits(n), 0) == n
  {
  }

  lemma NumberWithin(s: string, a: nat, part: string, i: nat)
    requires a + |part| <= |s| && s[a..a + |part|] == part && i + 2 <= |part|
    ensures NumberAt(s, a + i) == NumberAt(part, i)
  {
    assert s[a + i] == part[i] && s[a + i + 1] == part[i + 1];
  }

  lemma TimePositions(tm: Tm)
    requires InRange(tm)
    ensures var z := TimeTail(tm);
            && |z| == 12 && z[2] == z[5] == ':' && z[8..] == " GMT"
            && NumberAt(z, 0) == tm.hour && NumberAt(z, 3) == tm.min && NumberAt(z, 6) == tm.sec
  {
  }

  // `struct tm` fields are written right to left: each step extends the finished
  // suffix `buf[p + 1..29]` and moves `p` down.

  /** `*p-- = c` */
  method Put(buf: array<char>, p: nat, c: char) returns (q: int)
    requires p < 29 <= buf.Length
    modifies buf
    ensures q == p - 1
    ensures buf[p..29] == [c] + old(buf[p + 1..29]) && buf[29..] == old(buf[29..])
  {
    buf[p] := c;
    q := p - 1;
  }

  /** `*p-- = '0' + a % 10; *p-- = '0' + a / 10` */
  method PutTwo(buf: array<char>, p: nat, a: int) returns (q: int)
    requires 1 <= p < 29 <= buf.Length && 0 <= a < 100
    modifies buf
    ensures q == p - 2
    ensures buf[p - 1..29] == TwoDigits(a) + old(buf[p + 1..29]) && buf[29..] == old(buf[29..])
  {
    q := Put(buf, p, Digit(a % 10));
    q := Put(buf, q, Digit(a / 10));
  }

  /** `memcpy(p, s, 4)` */
  method PutFour(buf: array<char>, p: nat, s: string)
    requires p + 4 <= 29 <= buf.Length && |s| == 4
    modifies buf
    ensures buf[p..29] == s + old(buf[p + 4..29]) && buf[29..] == old(buf[29..])
  {
    buf[p], buf[p + 1], buf[p + 2], buf[p + 3] := s[0], s[1], s[2], s[3];
  }

  /** The last `k` decimal digits of `y`. */
  function LastDigits(y: nat, k: nat): (s: string)
    ensures |s| == k
  {
    if k == 0 then "" else LastDigits(y / 10, k - 1) + [Digit(y % 10)]
  }

  /** What is left of `y` after `k` divisions by ten. */
  function Shifted(y: nat, k: nat): nat {
    if k == 0 then y else Shifted(y / 10, k - 1)
  }

  lemma {:induction false} NextDigit(y: nat, k: nat)
    ensures LastDigits(y, k + 1) == [Digit(Shifted(y, k) % 10)] + LastDigits(y, k)
    ensures Shifted(y, k + 1) == Shifted(y, k) / 10
  {
    if k > 0 {
      NextDigit(y / 10, k - 1);
    }
  }

  /** One round of the digit loop: the last digit of `a`, in front of those already there. */
  method PutDigit(buf: array<char>, p: int, a: nat, ghost year: nat, ghost tail: string) returns (q: int)
    requires 11 < p <= 15 && 29 <= buf.Length && a == Shifted(year, 15 - p)
    requires buf[p + 1..29] == LastDigits(year, 15 - p) + tail
    modifies buf
    ensures q == p - 1 && a / 10 == Shifted(year, 15 - q)
    ensures buf[q + 1..29] == LastDigits(year, 15 - q) + tail && buf[29..] == old(buf[29..])
  {
    hide LastDigits, Shifted;
    NextDigit(year, 15 - p);
    ghost var d, suffix := Digit(a % 10), LastDigits(year, 15 - p);
    q := Put(buf, p, Digit(a % 10));
    assert [d] + (suffix + tail) == ([d] + suffix) + tail;
  }

  /** The digit loop of the year: `while (a) *p-- = '0' + a % 10` */
  method PutYear(buf: array<char>, year: int) returns (p: int)
    requires 29 <= buf.Length && 1000 <= year <= 9999
    modifies buf
    ensures p == 11
    ensures buf[12..29] == LastDigits(year, 4) + old(buf[16..29]) && buf[29..] == old(buf[29..])
  {
    p := 15;
    var a := year;
    ghost var tail := buf[16..29];
    while a != 0
      invariant 11 <= p <= 15 && a == Shifted(year, 15 - p)
      invariant p == 15 ==> 1000 <= a <= 9999
      invariant p == 14 ==> 100 <= a <= 999
      invariant p == 13 ==> 10 <= a <= 99
      invariant p == 12 ==> 1 <= a <= 9
      invariant p == 11 ==> a == 0
      invariant buf[p + 1..29] == LastDigits(year, 15 - p) + tail && buf[29..] == old(buf[29..])
      decreases p
    {
      p := PutDigit(buf, p, a, year, tail);
      a := a / 10;
    }
  }

  method PutTime(buf: array<char>, t: Tm)
    requires 29 <= buf.Length && InRange(t)
    modifies buf
    ensures buf[16..29] == " " + TimeTail(t) && buf[29..] == old(buf[29..])
  {
    var p := 25;
    PutFour(buf, p, " GMT");
    p := p - 1;
    p := PutTwo(buf, p, t.sec);
    p := Put(buf, p, ':');
    p := PutTwo(buf, p, t.min);
    p := Put(buf, p, ':');
    p := PutTwo(buf, p, t.hour);
    p := Put(buf, p, ' ');
  }

  method PutDate(buf: array<char>, t: Tm)
    requires 29 <= buf.Length && InRange(t) && 1000 <= Year(t) <= 9999
    requires buf[16..29] == " " + TimeTail(t)
    modifies buf
    ensures buf[..29] == Rfc1123(t) && buf[29..] == old(buf[29..])
  {
    var p := PutYear(buf, 1900 + t.year);
    p := p - 3;
    PutFour(buf, p, MONTHS[t.mon]);
    p := p - 1;
    p := Put(buf, p, ' ');
    p := PutTwo(buf, p, t.mday);
    p := Put(buf, p, ' ');
    p := p - 3;
    PutFour(buf, p, DAYS[t.wday]);
    assert buf[..29] == buf[0..29];
  }

  /** `now` stands for the global `current_time`, printed when `s` is 0. */
  function PrintedTime(s: int, now: int): int { if s == 0 then now else s }

  method Rfc822TimeBuf(buf: array<char>, s: int, now: int)
    requires buf.Length >= 29
    requires 1000 <= Year(Gmtime(PrintedTime(s, now))) <= 9999
    modifies buf
    ensures buf[..29] == Rfc1123(Gmtime(PrintedTime(s, now))) && buf[29..] == old(buf[29..])
  {
    var t: Tm;
    if s == 0 {
      t := Gmtime(now);
    } else {
      t := Gmtime(s);
    }
    PutTime(buf, t);
    PutDate(buf, t);
  }

  // ----- Parsing ------------------------------------------------------------------

  predicate IsSpace(c: char) {
    c == ' ' || '\t' <= c <= '\r'   // "\t\n\v\f\r" are 9 to 13
  }

  /** A conversion specification of `sscanf`: `%d`, `%<width>s`, white space or a literal. */
  datatype Directive = Int | Word(width: nat) | Space | Lit(c: char)

  /** The conversions `sscanf` completed, integers and words apart, each in order. */
  datatype Scanned = Scanned(nums: seq<int>, words: seq<string>)

  function SkipSpace(s: string): string {
    if s != "" && IsSpace(s[0]) then SkipSpace(s[1..]) else s
  }

  function ScanDigits(acc: int, s: string): (int, string)
    decreases |s|
  {
    if s != "" && IsDigit(s[0]) then ScanDigits(10 * acc + (s[0] as int - '0' as int), s[1..]) else (acc, s)
  }

  /** `%d`: leading white space, an optional sign, at least one digit. */
  function ScanInt(s: string): Option<(int, string)> {
    var s := SkipSpace(s);
    var negative := s != "" && s[0] == '-';
    var body := if s != "" && (s[0] == '+' || s[0] == '-') then s[1..] else s;
    if body == "" || !IsDigit(body[0]) then None
    else var (n, rest) := ScanDigits(0, body); Some((if negative then -n else n, rest))
  }

  /** The length of the longest run of non-space characters, at most `width`. */
  function WordLength(s: string, width: nat): (n: nat)
    ensures n <= |s|
  {
    if width == 0 || s == "" || IsSpace(s[0]) then 0 else 1 + WordLength(s[1..], width - 1)
  }

  /** `sscanf(s, fmt, ...)` from directive `k` on; it stops at the first mismatch. */
  function Scan(fmt: seq<Directive>, k: nat, s: string): Scanned
    requires k <= |fmt|
    decreases |fmt| - k
  {
    if k == |fmt| then Scanned([], [])
    else match fmt[k]
      case Int =>
        (match ScanInt(s)
         case None => Scanned([], [])
         case Some((n, rest)) => var r := Scan(fmt, k + 1, rest); r.(nums := [n] + r.nums))
      case Word(width) =>
        var s := SkipSpace(s);
        var n := WordLength(s, width);
        if n == 0 then Scanned([], [])
        else var r := Scan(fmt, k + 1, s[n..]); r.(words := [s[..n]] + r.words)
      case Space => Scan(fmt, k + 1, SkipSpace(s))
      case Lit(c) => if s != "" && s[0] == c then Scan(fmt, k + 1, s[1..]) else Scanned([], [])
  }

  const RFC1123 :=
    [Int, Space, Word(3), Space, Int, Space, Int, Lit(':'), Int, Lit(':'), Int, Space, Lit('G'), Lit('M'), Lit('T')]
  const RFC1036 :=
    [Int, Lit('-'), Word(3), Lit('-'), Int, Space, Int, Lit(':'), Int, Lit(':'), Int, Space, Lit('G'), Lit('M'), Lit('T')]
  const ASCTIME :=
    [Word(3), Space, Int, Space, Int, Lit(':'), Int, Lit(':'), Int, Space, Int]
  const NON_STANDARD :=
    [Int, Space, Word(10), Space, Int, Space, Int, Lit(':'), Int, Lit(':'), Int, Space, Lit('G'), Lit('M'), Lit('T')]

  /** `sscanf(...) == 6`: every format has five integers and one word. */
  predicate AllSix(r: Scanned) { |r.nums| == 5 && |r.words| == 1 }

  /** `s[i]` of a NUL-terminated string. */
  function CharAt(s: string, i: nat): char { if i < |s| then s[i] else '\0' }

  function Month2Int(name: string): int {
    match CharAt(name, 0)
    case 'A' => if CharAt(name, 1) == 'p' then 3 else 7
    case 'D' => 11
    case 'F' => 1
    case 'J' => if CharAt(name, 1) == 'a' then 0 else if CharAt(name, 2) == 'n' then 5 else 6
    case 'M' => if CharAt(name, 2) == 'r' then 2 else 4
    case 'N' => 10
    case 'O' => 9
    case 'S' => 8
    case _ => -1
  }

  /** The year rules and range checks at the end of `date_to_tm`. */
  function CheckedTm(day: int, month: string, year: int, hour: int, minute: int, second: int): Option<Tm> {
    var y := if year < 70 then year + 100 else year;
    var y := if y > 1900 then y - 1900 else y;
    var tm := Tm(second, minute, hour, day, Month2Int(month), y, 0);
    if tm.mon == -1 then None
    else if tm.sec < 0 || tm.sec > 59 then None
    else if tm.min < 0 || tm.min > 59 then None
    else if tm.hour < 0 || tm.hour > 23 then None
    else if tm.mday < 1 || tm.mday > 31 then None
    else if tm.mon < 0 || tm.mon > 11 then None
    else if tm.year < 70 || tm.year > 120 then None
    else Some(tm)
  }

  function FirstSpace(s: string): (n: nat)
    ensures n <= |s|
    ensures n < |s| ==> s[n] == ' '
  {
    if s == "" || s[0] == ' ' then 0 else 1 + FirstSpace(s[1..])
  }

  function DateToTm(s: string): Option<Tm> {
    var n := FirstSpace(s);
    if n == |s| then None
    else
      var t := s[n..];
      var a := Scan(RFC1123, 0, t);
      if AllSix(a) then CheckedTm(a.nums[0], a.words[0], a.nums[1], a.nums[2], a.nums[3], a.nums[4])
      else
        var b := Scan(RFC1036, 0, t);
        if AllSix(b) then CheckedTm(b.nums[0], b.words[0], b.nums[1], b.nums[2], b.nums[3], b.nums[4])
        else
          var c := Scan(ASCTIME, 0, t);
          if AllSix(c) then CheckedTm(c.nums[0], c.words[0], c.nums[4], c.nums[1], c.nums[2], c.nums[3])
          else
            var d := Scan(NON_STANDARD, 0, s);
            if AllSix(d) then CheckedTm(d.nums[0], d.words[0], d.nums[1], d.nums[2], d.nums[3], d.nums[4])
            else None
  }

  /** 1 when the file is newer than the header, 0 when it is not, -1 for a bad date. */
  function ModifiedSince(mtime: int, header: string): int {
    match DateToTm(header)
    case None => -1
    case Some(parsed) => if FieldsLater(Gmtime(mtime), parsed) then 1 else 0
  }

  // ----- The printed date parses back ---------------------------------------------

  lemma {:induction false} ScanLastDigits(acc: int, y: nat, k: nat, rest: string)
    requires y < Pow10(k)
    ensures ScanDigits(acc, LastDigits(y, k) + rest) == ScanDigits(acc * Pow10(k) + y, rest)
  {
    if k == 0 {
      assert "" + rest == rest;
    } else {
      var d := [Digit(y % 10)];
      assert LastDigits(y, k) + rest == LastDigits(y / 10, k - 1) + (d + rest);
      assert y / 10 < Pow10(k - 1);
      ScanLastDigits(acc, y / 10, k - 1, d + rest);
      assert (d + rest)[1..] == rest && (d + rest)[0] == Digit(y % 10);
      AppendedDigit(acc, y, k);
    }
  }

  lemma AppendedDigit(acc: int, y: nat, k: nat)
    requires k > 0
    ensures 10 * (acc * Pow10(k - 1) + y / 10) + y % 10 == acc * Pow10(k) + y
  {
    var p := Pow10(k - 1);
    assert acc * (10 * p) == 10 * (acc * p);
  }

  lemma ScanPadded(y: nat, k: nat, rest: string)
    requires k > 0 && y < Pow10(k)
    requires rest != "" && !IsDigit(rest[0])
    ensures ScanInt(LastDigits(y, k) + rest) == Some((y, rest))
  {
    FirstIsDigit(y, k);
    var body := LastDigits(y, k) + rest;
    assert body[0] == LastDigits(y, k)[0];
    ScanLastDigits(0, y, k, rest);
  }

  lemma ScanAfterSpace(y: nat, k: nat, rest: string)
    requires k > 0 && y < Pow10(k)
    requires rest != "" && !IsDigit(rest[0])
    ensures ScanInt(" " + (LastDigits(y, k) + rest)) == Some((y, rest))
  {
    var body := LastDigits(y, k) + rest;
    FirstIsDigit(y, k);
    assert body[0] == LastDigits(y, k)[0];
    assert (" " + body)[1..] == body;
    assert SkipSpace(" " + body) == SkipSpace(body);
    ScanPadded(y, k, rest);
  }

  lemma {:induction false} FirstIsDigit(y: nat, k: nat)
    requires k > 0
    ensures IsDigit(LastDigits(y, k)[0])
  {
    if k > 1 {
      FirstIsDigit(y / 10, k - 1);
    }
  }

  lemma TwoDigitsAreLast(n: int)
    requires 0 <= n < 100
    ensures TwoDigits(n) == LastDigits(n, 2) && n < Pow10(2)
  {
    assert LastDigits(n / 10, 1) == LastDigits(n / 10 / 10, 0) + [Digit(n / 10)];
    assert Pow10(1) == 10;
  }

  lemma MonthNameParses(m: int, rest: string)
    requires 0 <= m < 12
    ensures Month2Int(MONTHS[m][..3]) == m
    ensures SkipSpace(" " + (MONTHS[m] + rest)) == MONTHS[m] + rest && WordLength(MONTHS[m] + rest, 3) == 3
  {
    var w := MONTHS[m] + rest;
    assert w[..3] == MONTHS[m][..3];
    assert (" " + w)[1..] == w;
    assert WordLength(w[1..][1..], 1) == 1;
    assert WordLength(w[1..], 2) == 2;
  }

  lemma ScanClock(k: nat, n: int, rest: string, r: Scanned)
    requires k < |RFC1123| && RFC1123[k] == Int && 0 <= n < 100
    requires rest != "" && !IsDigit(rest[0]) && Scan(RFC1123, k + 1, rest) == r
    ensures Scan(RFC1123, k, TwoDigits(n) + rest) == r.(nums := [n] + r.nums)
  {
    TwoDigitsAreLast(n);
    ScanPadded(n, 2, rest);
  }

  lemma ScanTime(tm: Tm)
    requires InRange(tm)
    ensures Scan(RFC1123, 5, " " + TimeTail(tm)) == Scanned([tm.hour, tm.min, tm.sec], [])
  {
    hide TwoDigits;
    var s2 := TwoDigits(tm.sec) + " GMT";
    var s4 := TwoDigits(tm.min) + (":" + s2);
    ScanZone();
    ScanClock(10, tm.sec, " GMT", Scanned([], []));
    assert (":" + s2)[1..] == s2;
    ScanClock(8, tm.min, ":" + s2, Scanned([tm.sec], []));
    assert (":" + s4)[1..] == s4;
    ScanClock(6, tm.hour, ":" + s4, Scanned([tm.min, tm.sec], []));
    LeadingSpace(tm);
  }

  lemma ScanZone()
    ensures Scan(RFC1123, 11, " GMT") == Scanned([], [])
  {
    assert Scan(RFC1123, 15, "") == Scanned([], []);
    assert Scan(RFC1123, 14, "T") == Scanned([], []);
    assert Scan(RFC1123, 13, "MT") == Scanned([], []);
    assert Scan(RFC1123, 12, "GMT") == Scanned([], []);
    assert SkipSpace(" GMT") == "GMT";
  }

  lemma LeadingSpace(tm: Tm)
    requires InRange(tm)
    ensures SkipSpace(" " + TimeTail(tm)) == TimeTail(tm)
  {
    assert (" " + TimeTail(tm))[1..] == TimeTail(tm);
  }

  lemma ScanYear(tm: Tm)
    requires InRange(tm) && 1000 <= Year(tm) <= 9999
    ensures Scan(RFC1123, 3, " " + (LastDigits(Year(tm), 4) + (" " + TimeTail(tm))))
         == Scanned([Year(tm), tm.hour, tm.min, tm.sec], [])
  {
    var t := " " + TimeTail(tm);
    var y := LastDigits(Year(tm), 4) + t;
    ScanTime(tm);
    assert Pow10(2) == 100 && Pow10(4) == 10000;
    FirstIsDigit(Year(tm), 4);
    assert y[0] == LastDigits(Year(tm), 4)[0];
    assert (" " + y)[1..] == y;
    assert SkipSpace(" " + y) == SkipSpace(y) == y;
    ScanPadded(Year(tm), 4, t);
    assert Scan(RFC1123, 4, y) == Scanned([Year(tm), tm.hour, tm.min, tm.sec], []);
  }

  lemma ScanMonth(m: int, rest: string, r: Scanned)
    requires 0 <= m < 12 && Scan(RFC1123, 3, " " + rest) == r
    ensures Scan(RFC1123, 1, " " + (MONTHS[m] + rest)) == r.(words := [MONTHS[m][..3]] + r.words)
  {
    MonthNameParses(m, rest);
    var w := MONTHS[m] + rest;
    assert SkipSpace(w) == w;
    assert w[..3] == MONTHS[m][..3] && w[3..] == " " + rest;
    assert Scan(RFC1123, 2, w) == r.(words := [MONTHS[m][..3]] + r.words);
  }

  lemma ScanDate(tm: Tm)
    requires InRange(tm) && 1000 <= Year(tm) <= 9999
    ensures Scan(RFC1123, 0, DateTail(tm)) == Scanned([tm.mday, Year(tm), tm.hour, tm.min, tm.sec], [MONTHS[tm.mon][..3]])
  {
    var y := LastDigits(Year(tm), 4) + (" " + TimeTail(tm));
    var m := " " + (MONTHS[tm.mon] + y);
    ScanYear(tm);
    ScanMonth(tm.mon, y, Scanned([Year(tm), tm.hour, tm.min, tm.sec], []));
    TwoDigitsAreLast(tm.mday);
    ScanAfterSpace(tm.mday, 2, m);
  }

  lemma WeekdaySkipped(tm: Tm)
    requires InRange(tm) && 1000 <= Year(tm) <= 9999
    ensures FirstSpace(Rfc1123(tm)) == 4 && Rfc1123(tm)[4..] == DateTail(tm)
  {
    var s := Rfc1123(tm);
    assert forall i :: 0 <= i < 4 ==> s[i] == DAYS[tm.wday][i] && s[i] != ' ';
    assert FirstSpace(s[1..][1..][1..]) == 1;
    assert FirstSpace(s[1..][1..]) == 2;
    assert FirstSpace(s[1..]) == 3;
  }

  lemma CheckedFields(tm: Tm)
    requires InRange(tm)
    requires 1000 <= Year(tm) <= 9999
    ensures CheckedTm(tm.mday, MONTHS[tm.mon][..3], Year(tm), tm.hour, tm.min, tm.sec)
         == if 1970 <= Year(tm) <= 2020 then Some(tm.(wday := 0)) else None
  {
    MonthNameParses(tm.mon, "");
  }

  /** Printing then parsing a date returns its fields for 1970 to 2020, and an error otherwise. */
  lemma PrintedDateParses(tm: Tm)
    requires InRange(tm) && 1000 <= Year(tm) <= 9999
    ensures DateToTm(Rfc1123(tm)) == if 1970 <= Year(tm) <= 2020 then Some(tm.(wday := 0)) else None
  {
    WeekdaySkipped(tm);
    ScanDate(tm);
    CheckedFields(tm);
    var a := Scan(RFC1123, 0, DateTail(tm));
    assert AllSix(a);
  }

  /** The law of If-Modified-Since: against the printed form of instant `u` the answer is
      "newer" exactly when `t > u`, in every year `date_to_tm` accepts; every other
      four-digit year is rejected. A zero `u` prints the current time instead. */
  lemma ModifiedSincePrinted(t: int, u: int, now: int)
    requires 1000 <= Year(Gmtime(PrintedTime(u, now))) <= 9999
    ensures var p := PrintedTime(u, now);
            ModifiedSince(t, Rfc1123(Gmtime(p)))
            == if !(1970 <= Year(Gmtime(p)) <= 2020) then -1 else if t > p then 1 else 0
  {
    var tm := Gmtime(PrintedTime(u, now));
    PrintedDateParses(tm);
    FieldsLaterIsLater(Gmtime(t), tm);
    assert FieldsLater(Gmtime(t), tm.(wday := 0)) == FieldsLater(Gmtime(t), tm);
  }
}
