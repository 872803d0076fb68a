/** The packed state table of `range_parse` (src/range.c) and the language it accepts. */
module RangeSyntax {
  import opened Commons

  /** `unsigned long` is 64 bits wide; -1 marks a missing number. `(unsigned) -1` is not the
      same value: it is the 32-bit all-ones. */
  const WRAP := 0x1_0000_0000_0000_0000
  const NOT_GIVEN := WRAP - 1
  const UNSIGNED_MINUS_ONE := 0xffff_ffff

  /** One `Range` node. */
  datatype Spec = Spec(start: int, stop: int)

  // ----- The table ----------------------------------------------------------------

  const INITIAL := 0
  const STARTNUM := 1
  const GAP1 := 2
  const GAP2 := 3
  const STOPNUM := 4

  const PB := 0x20
  const PE := 0x40
  const DB := 0x60
  const DE := 0x80
  const AR := 0x10
  const SR := 0x18

  const STABLE: seq<int> :=
    [/* initial  */ PB + STARTNUM, 0 + INITIAL, 0 + INITIAL, DB + GAP2, 0, AR,
     /* startnum */ PB + STARTNUM, 0 + GAP1, AR, 0 + GAP2, AR, AR,
     /* gap1     */ AR, 0 + GAP1, AR, 0 + GAP2, AR, AR,
     /* gap2     */ PE + STOPNUM, 0 + GAP2, DE + SR + INITIAL, AR, DE + SR, AR,
     /* stopnum  */ PE + STOPNUM, SR + INITIAL, SR + INITIAL, AR, SR, AR]

  predicate IsWhite(c: char) { c == ' ' || '\t' <= c <= '\r' }   // "\f\n\r\t\v" are 9 to 13

  predicate IsSeparator(c: char) { IsWhite(c) || c == ',' }

  const DIGIT := 0
  const WHITE := 1
  const COMMA := 2
  const HYPHEN := 3
  const NULL := 4
  const OTHER := 5

  function CharCode(c: char): (k: int)
    ensures 0 <= k <= 5
  {
    if IsDigit(c) then DIGIT
    else if IsWhite(c) then WHITE
    else if c == ',' then COMMA
    else if c == '-' then HYPHEN
    else if c == '\0' then NULL
    else OTHER
  }

  /** `fcode & ACTMASK1`, `fcode & ACTMASK2` and `fcode & STATEMASK`. */
  function Act1(fcode: int): int { fcode / 32 % 8 * 32 }
  function Act2(fcode: int): int { fcode / 8 % 4 * 8 }
  function Next(fcode: int): int { fcode % 8 }

  function DigitValue(c: char): int { c as int - '0' as int }

  /** `n * 10 + (c - '0')` in an `unsigned long`. */
  function Shift(n: int, c: char): int { (n * 10 + DigitValue(c)) % WRAP }

  /** The loop's variables, and the specs submitted so far. */
  datatype Machine =
    | Running(mode: int, start: int, stop: int, out: seq<Spec>)
    | Accepted(out: seq<Spec>)
    | Rejected(out: seq<Spec>)

  const START := Running(INITIAL, 0, 0, [])

  predicate Forbidden(r: Spec) { r.start == r.stop == UNSIGNED_MINUS_ONE }

  predicate Sane(m: Machine) { m.Running? ==> 0 <= m.mode <= 4 }

  /** One iteration of the loop, in a mode of the table. */
  function TableStep(m: Machine, c: char): (r: Machine)
    requires Sane(m)
    ensures Sane(r)
  {
    if !m.Running? then m
    else
      var fcode := STABLE[m.mode * 6 + CharCode(c)];
      var start := if Act1(fcode) == PB then Shift(m.start, c)
                   else if Act1(fcode) == DB then NOT_GIVEN else m.start;
      var stop := if Act1(fcode) == PE then Shift(m.stop, c)
                  else if Act1(fcode) == DE then NOT_GIVEN else m.stop;
      if Act2(fcode) == AR then Rejected(m.out)
      else if Act2(fcode) == SR && Forbidden(Spec(start, stop)) then Rejected(m.out)
      else
        var out := if Act2(fcode) == SR then m.out + [Spec(start, stop)] else m.out;
        if CharCode(c) == NULL then Accepted(out)
        else if Act2(fcode) == SR then Running(Next(fcode), 0, 0, out)
        else Running(Next(fcode), start, stop, out)
  }

  /** The table read out: the transitions as a plain automaton. */
  function Step(m: Machine, c: char): (r: Machine)
    requires Sane(m)
    ensures Sane(r)
  {
    if !m.Running? then m
    else match m.mode
    case 0 =>
      if IsDigit(c) then m.(mode := STARTNUM, start := Shift(m.start, c))
      else if IsSeparator(c) then m
      else if c == '-' then m.(mode := GAP2, start := NOT_GIVEN)
      else if c == '\0' then Accepted(m.out) else Rejected(m.out)
    case 1 =>
      if IsDigit(c) then m.(start := Shift(m.start, c))
      else if IsWhite(c) then m.(mode := GAP1)
      else if c == '-' then m.(mode := GAP2) else Rejected(m.out)
    case 2 =>
      if IsWhite(c) then m else if c == '-' then m.(mode := GAP2) else Rejected(m.out)
    case 3 =>
      if IsDigit(c) then m.(mode := STOPNUM, stop := Shift(m.stop, c))
      else if IsWhite(c) then m
      else if c == ',' || c == '\0' then Submit(m, Spec(m.start, NOT_GIVEN), c) else Rejected(m.out)
    case _ =>
      if IsDigit(c) then m.(stop := Shift(m.stop, c))
      else if IsSeparator(c) || c == '\0' then Submit(m, Spec(m.start, m.stop), c) else Rejected(m.out)
  }

  function Submit(m: Machine, r: Spec, c: char): Machine
    requires m.Running?
  {
    if Forbidden(r) then Rejected(m.out)
    else if c == '\0' then Accepted(m.out + [r])
    else Running(INITIAL, 0, 0, m.out + [r])
  }

  lemma NextRow(i: nat)
    requires i < 30
    ensures |STABLE| == 30 && 0 <= Next(STABLE[i]) <= 4
  {
  }

  lemma FirstRows(m: Machine, c: char)
    requires m.Running? && 0 <= m.mode <= 2
    ensures TableStep(m, c) == Step(m, c)
  {
  }

  lemma LastRows(m: Machine, c: char)
    requires m.Running? && 3 <= m.mode <= 4
    ensures TableStep(m, c) == Step(m, c)
  {
  }

  /** The packed table is that automaton. */
  lemma TableReadOut(m: Machine, c: char)
    requires Sane(m)
    ensures TableStep(m, c) == Step(m, c)
  {
    if m.Running? && m.mode <= 2 {
      FirstRows(m, c);
    } else if m.Running? {
      LastRows(m, c);
    }
  }

  /** The loop over the characters of `s`. */
  function Run(m: Machine, s: string): (r: Machine)
    requires Sane(m)
    ensures Sane(r)
  {
    if s == "" then m else Step(Run(m, s[..|s| - 1]), s[|s| - 1])
  }

  /** `range_parse` after the "bytes=" prefix: the NUL ends the string. */
  function ParseSet(s: string): Machine { Step(Run(START, s), '\0') }

  lemma {:induction false} RunConcat(m: Machine, a: string, b: string)
    requires Sane(m)
    ensures Run(m, a + b) == Run(Run(m, a), b)
  {
    if b == "" {
      assert a + b == a;
    } else {
      assert (a + b)[..|a + b| - 1] == a + b[..|b| - 1];
      RunConcat(m, a, b[..|b| - 1]);
    }
  }

  // ----- The language -------------------------------------------------------------

  predicate AllDigits(s: string) { forall i :: 0 <= i < |s| ==> IsDigit(s[i]) }
  predicate AllWhite(s: string) { forall i :: 0 <= i < |s| ==> IsWhite(s[i]) }
  predicate AllSeparators(s: string) { forall i :: 0 <= i < |s| ==> IsSeparator(s[i]) }

  /** One spec with the separators before it: `lead first ws1 "-" ws2 last`. */
  datatype Element = Element(lead: string, first: string, ws1: string, ws2: string, last: string)

  const NOTHING := Element("", "", "", "", "")

  /** The decimal value of a digit string. */
  function Decimal(s: string): nat
    requires AllDigits(s)
  {
    if s == "" then 0 else 10 * Decimal(s[..|s| - 1]) + DigitValue(s[|s| - 1])
  }

  /** The digits accumulated in an `unsigned long`. */
  function Accumulated(s: string): int {
    if s == "" then 0 else Shift(Accumulated(s[..|s| - 1]), s[|s| - 1])
  }

  /** A number as the parser stores it: missing, or modulo 2^64. */
  function Number(s: string): int { if s == "" then NOT_GIVEN else Accumulated(s) }

  lemma {:induction false} AccumulatedIsDecimal(s: string)
    requires AllDigits(s)
    ensures Accumulated(s) == Decimal(s) % WRAP
  {
    if s != "" {
      var init, d := s[..|s| - 1], DigitValue(s[|s| - 1]);
      AccumulatedIsDecimal(init);
      DigitModulo(Decimal(init), d);
    }
  }

  lemma DigitModulo(x: nat, d: int)
    ensures (x % WRAP * 10 + d) % WRAP == (10 * x + d) % WRAP
  {
    var q := x / WRAP;
    assert 10 * x + d == 10 * (x % WRAP) + d + WRAP * (10 * q);
  }

  /** A separator must follow a spec; only a comma ends one that has no last number. */
  predicate Separates(closed: bool, lead: string) {
    AllSeparators(lead) && lead != "" && (closed || lead[0] == ',')
  }

  predicate GoodElement(e: Element) {
    && AllSeparators(e.lead) && AllDigits(e.first) && AllWhite(e.ws1) && AllWhite(e.ws2) && AllDigits(e.last)
    && (e.first == "" ==> e.ws1 == "")
  }

  predicate Closed(ds: seq<Element>) { ds != [] && ds[|ds| - 1].last != "" }

  /** A well-formed list of specs. */
  predicate GoodList(ds: seq<Element>) {
    && (forall i :: 0 <= i < |ds| ==> GoodElement(ds[i]))
    && (forall i :: 0 < i < |ds| ==> Separates(ds[i - 1].last != "", ds[i].lead))
  }

  /** What may come between the specs `ds` and the next one, or the end of the text. */
  predicate GoodLead(ds: seq<Element>, lead: string) {
    AllSeparators(lead) && (ds != [] ==> Separates(Closed(ds), lead))
  }

  /** A byte-range set: specs, then separators that may be absent. */
  predicate ByteRangeSet(ds: seq<Element>, trail: string) {
    GoodList(ds) && (trail == "" || GoodLead(ds, trail))
  }

  function Text(e: Element): string { e.lead + e.first + e.ws1 + "-" + e.ws2 + e.last }

  function Texts(ds: seq<Element>): string {
    if ds == [] then "" else Texts(ds[..|ds| - 1]) + Text(ds[|ds| - 1])
  }

  function Denote(e: Element): Spec
    requires GoodElement(e)
  {
    Spec(Number(e.first), Number(e.last))
  }

  function Denotes(ds: seq<Element>): seq<Spec>
    requires forall i :: 0 <= i < |ds| ==> GoodElement(ds[i])
  {
    if ds == [] then [] else Denotes(ds[..|ds| - 1]) + [Denote(ds[|ds| - 1])]
  }

  predicate NoneForbidden(specs: seq<Spec>) { forall i :: 0 <= i < |specs| ==> !Forbidden(specs[i]) }

  // ----- Everything accepted is in the language ------------------------------------

  /** The text of an element that has been read up to the point where `mode` stands. */
  function PartialText(mode: int, e: Element): string {
    e.lead + e.first + e.ws1 + (if mode >= GAP2 then "-" else "") + e.ws2 + e.last
  }

  /** The specs `out` are those denoted by `ds`, and none was refused. */
  ghost predicate Submitted(out: seq<Spec>, ds: seq<Element>) {
    GoodList(ds) && out == Denotes(ds) && NoneForbidden(out)
  }

  /** `ds` are the specs submitted and `e` the one being read. */
  ghost predicate Reading(m: Machine, ds: seq<Element>, e: Element, s: string) {
    && m.Running? && Submitted(m.out, ds)
    && s == Texts(ds) + PartialText(m.mode, e)
    && GoodElement(e)
    && match m.mode
       case 0 => (ds != [] || e.lead != "" ==> GoodLead(ds, e.lead)) && e == NOTHING.(lead := e.lead) && m.start == m.stop == 0
       case 1 => GoodLead(ds, e.lead) && e.first != "" && e.ws1 == e.ws2 == e.last == "" && m.start == Number(e.first) && m.stop == 0
       case 2 => GoodLead(ds, e.lead) && e.first != "" && e.ws2 == e.last == "" && m.start == Number(e.first) && m.stop == 0
       case 3 => GoodLead(ds, e.lead) && e.last == "" && m.start == Number(e.first) && m.stop == 0
       case 4 => GoodLead(ds, e.lead) && e.last != "" && m.start == Number(e.first) && m.stop == Number(e.last)
       case _ => false
  }

  lemma DigitAppended(s: string, c: char)
    requires AllDigits(s) && IsDigit(c)
    ensures AllDigits(s + [c]) && Number(s + [c]) == Shift(if s == "" then 0 else Number(s), c)
  {
    var t := s + [c];
    assert t[..|t| - 1] == s && t[|t| - 1] == c;
    assert Accumulated(t) == Shift(Accumulated(s), c);
  }

  lemma DenotesAppended(ds: seq<Element>, e: Element)
    requires GoodList(ds) && GoodElement(e) && GoodLead(ds, e.lead)
    ensures GoodList(ds + [e]) && Denotes(ds + [e]) == Denotes(ds) + [Denote(e)] && Texts(ds + [e]) == Texts(ds) + Text(e)
  {
    hide Number, GoodElement, Text;
    assert (ds + [e])[..|ds|] == ds;
  }

  lemma LeadAppended(ds: seq<Element>, lead: string, c: char)
    requires AllSeparators(lead) && (ds != [] || lead != "" ==> GoodLead(ds, lead))
    ensures GoodLead(ds, lead)
    ensures IsSeparator(c) ==> AllSeparators(lead + [c]) && lead + [c] != "" && GoodLead(ds, lead + [c])
  {
    assert lead != "" ==> (lead + [c])[0] == lead[0];
  }

  lemma NoNumber()
    ensures Number("") == NOT_GIVEN
  {
  }

  lemma ReadFirstDigit(m: Machine, ds: seq<Element>, e: Element, s: string, c: char)
    requires Reading(m, ds, e, s) && m.mode == INITIAL && IsDigit(c)
    ensures Reading(m.(mode := STARTNUM, start := Shift(m.start, c)), ds, e.(first := [c]), s + [c])
  {
    hide Texts, Number, Shift, Submitted, GoodLead, Decimal, Accumulated;
    LeadAppended(ds, e.lead, c);
    DigitAppended("", c);
    assert "" + [c] == [c];
  }

  lemma ReadLead(m: Machine, ds: seq<Element>, e: Element, s: string, c: char)
    requires Reading(m, ds, e, s) && m.mode == INITIAL && IsSeparator(c)
    ensures Reading(m, ds, e.(lead := e.lead + [c]), s + [c])
  {
    hide Texts, Number, Shift, Submitted, GoodLead, Decimal, Accumulated;
    LeadAppended(ds, e.lead, c);
  }

  lemma ReadHyphen(m: Machine, ds: seq<Element>, e: Element, s: string)
    requires Reading(m, ds, e, s) && m.mode == INITIAL
    ensures Reading(m.(mode := GAP2, start := NOT_GIVEN), ds, e, s + "-")
  {
    hide Texts, Number, Shift, Submitted, GoodLead, Decimal, Accumulated;
    LeadAppended(ds, e.lead, '-');
    NoNumber();
  }

  lemma ReadInitial(m: Machine, ds: seq<Element>, e: Element, s: string, c: char) returns (e': Element)
    requires Reading(m, ds, e, s) && m.mode == INITIAL
    ensures Step(m, c).Running? ==> Reading(Step(m, c), ds, e', s + [c])
  {
    hide Reading, Step, Shift, IsDigit, IsSeparator;
    IsRunning(m, ds, e, s);
    InitialRow(m, c);
    if IsDigit(c) {
      ReadFirstDigit(m, ds, e, s, c);
      e' := e.(first := [c]);
    } else if IsSeparator(c) {
      ReadLead(m, ds, e, s, c);
      e' := e.(lead := e.lead + [c]);
    } else {
      ReadHyphen(m, ds, e, s);
      e' := e;
    }
  }

  lemma IsRunning(m: Machine, ds: seq<Element>, e: Element, s: string)
    requires Reading(m, ds, e, s)
    ensures m.Running?
  {
  }

  lemma InitialRow(m: Machine, c: char)
    requires m.Running? && m.mode == INITIAL
    ensures Step(m, c) == if IsDigit(c) then m.(mode := STARTNUM, start := Shift(m.start, c))
                          else if IsSeparator(c) then m
                          else if c == '-' then m.(mode := GAP2, start := NOT_GIVEN)
                          else if c == '\0' then Accepted(m.out) else Rejected(m.out)
  {
  }

  lemma ReadStart(m: Machine, ds: seq<Element>, e: Element, s: string, c: char) returns (e': Element)
    requires Reading(m, ds, e, s) && (m.mode == STARTNUM || m.mode == GAP1)
    ensures Step(m, c).Running? ==> Reading(Step(m, c), ds, e', s + [c])
  {
    hide Texts, Number, Shift, Submitted, GoodLead;
    if IsDigit(c) {
      DigitAppended(e.first, c);
      e' := e.(first := e.first + [c]);
    } else if IsWhite(c) {
      e' := e.(ws1 := e.ws1 + [c]);
    } else {
      e' := e;
    }
  }

  lemma ReadStop(m: Machine, ds: seq<Element>, e: Element, s: string, c: char) returns (e': Element)
    requires Reading(m, ds, e, s) && (m.mode == GAP2 || m.mode == STOPNUM)
    requires IsDigit(c) || (m.mode == GAP2 && IsWhite(c))
    ensures Reading(Step(m, c), ds, e', s + [c])
  {
    hide Texts, Number, Shift, Submitted, GoodLead;
    if IsDigit(c) {
      DigitAppended(e.last, c);
      e' := e.(last := e.last + [c]);
    } else {
      e' := e.(ws2 := e.ws2 + [c]);
    }
  }

  lemma ReadSubmit(m: Machine, ds: seq<Element>, e: Element, s: string, c: char)
    requires Reading(m, ds, e, s) && (m.mode == GAP2 || m.mode == STOPNUM)
    requires IsSeparator(c) && (m.mode == STOPNUM || c == ',')
    ensures Step(m, c).Running? ==> Reading(Step(m, c), ds + [e], NOTHING.(lead := [c]), s + [c])
  {
    DenotesAppended(ds, e);
    if Step(m, c).Running? {
      assert PartialText(INITIAL, NOTHING.(lead := [c])) == [c];
      assert PartialText(m.mode, e) == Text(e);
    }
  }

  /** One character keeps the reading. */
  lemma ReadOne(m: Machine, ds: seq<Element>, e: Element, s: string, c: char) returns (ds': seq<Element>, e': Element)
    requires Sane(m) && Reading(m, ds, e, s)
    ensures Step(m, c).Running? ==> Reading(Step(m, c), ds', e', s + [c])
  {
    ds', e' := ds, e;
    if m.mode == INITIAL {
      e' := ReadInitial(m, ds, e, s, c);
    } else if m.mode <= GAP1 {
      e' := ReadStart(m, ds, e, s, c);
    } else if IsDigit(c) || (m.mode == GAP2 && IsWhite(c)) {
      e' := ReadStop(m, ds, e, s, c);
    } else if IsSeparator(c) {
      ReadSubmit(m, ds, e, s, c);
      ds', e' := ds + [e], NOTHING.(lead := [c]);
    }
  }

  lemma {:induction false} ReadAll(s: string) returns (ds: seq<Element>, e: Element)
    requires Run(START, s).Running?
    ensures Reading(Run(START, s), ds, e, s)
  {
    if s == "" {
      ds, e := [], NOTHING;
    } else {
      var init, c := s[..|s| - 1], s[|s| - 1];
      ds, e := ReadAll(init);
      ds, e := ReadOne(Run(START, init), ds, e, init, c);
      assert init + [c] == s;
    }
  }

  /** Soundness: whatever `range_parse` accepts is a byte-range set, and the list it builds is
      what that set denotes. */
  lemma Soundness(s: string) returns (ds: seq<Element>, trail: string)
    requires '\0' !in s && ParseSet(s).Accepted?
    ensures ByteRangeSet(ds, trail) && s == Texts(ds) + trail
    ensures ParseSet(s).out == Denotes(ds) && NoneForbidden(Denotes(ds))
  {
    hide Run, Texts, Denotes, Number, Forbidden, NoneForbidden;
    NoNulRuns(s);
    NoNumber();
    var m := Run(START, s);
    var e: Element;
    ds, e := ReadAll(s);
    if m.mode == INITIAL {
      trail := e.lead;
    } else {
      var r := Denote(e);
      DenotesAppended(ds, e);
      NoneForbiddenAppended(Denotes(ds), r);
      assert PartialText(m.mode, e) == Text(e);
      ds, trail := ds + [e], "";
    }
  }

  /** Only the NUL makes the loop accept. */
  lemma {:induction false} NoNulRuns(s: string)
    requires '\0' !in s
    ensures !Run(START, s).Accepted?
  {
    if s != "" {
      NoNulRuns(s[..|s| - 1]);
      if Run(START, s[..|s| - 1]).Running? {
      }
    }
  }

  // ----- Everything in the language is accepted ------------------------------------

  lemma {:induction false} RunSeparators(out: seq<Spec>, s: string)
    requires AllSeparators(s)
    ensures Run(Running(INITIAL, 0, 0, out), s) == Running(INITIAL, 0, 0, out)
  {
    if s != "" {
      RunSeparators(out, s[..|s| - 1]);
    }
  }

  lemma {:induction false} RunWhite(m: Machine, s: string)
    requires m.Running? && m.mode in {STARTNUM, GAP1, GAP2} && AllWhite(s)
    ensures Run(m, s) == if s != "" && m.mode == STARTNUM then m.(mode := GAP1) else m
  {
    if s != "" {
      RunWhite(m, s[..|s| - 1]);
    }
  }

  lemma {:induction false} RunFirst(out: seq<Spec>, s: string)
    requires AllDigits(s) && s != ""
    ensures Run(Running(INITIAL, 0, 0, out), s) == Running(STARTNUM, Number(s), 0, out)
  {
    var init, c := s[..|s| - 1], s[|s| - 1];
    assert init + [c] == s;
    DigitAppended(init, c);
    if init != "" {
      RunFirst(out, init);
    } else {
    }
  }

  lemma {:induction false} RunLast(start: int, out: seq<Spec>, s: string)
    requires AllDigits(s) && s != ""
    ensures Run(Running(GAP2, start, 0, out), s) == Running(STOPNUM, start, Number(s), out)
  {
    var init, c := s[..|s| - 1], s[|s| - 1];
    assert init + [c] == s;
    DigitAppended(init, c);
    if init != "" {
      RunLast(start, out, init);
    } else {
    }
  }

  /** The machine at the end of the text of `e`, which is not submitted yet. */
  function Pending(out: seq<Spec>, e: Element): Machine
    requires GoodElement(e)
  {
    if e.last == "" then Running(GAP2, Number(e.first), 0, out)
    else Running(STOPNUM, Number(e.first), Number(e.last), out)
  }

  lemma RunUpToHyphen(out: seq<Spec>, e: Element)
    requires GoodElement(e)
    ensures Run(Running(INITIAL, 0, 0, out), e.lead + e.first + e.ws1 + "-") == Running(GAP2, Number(e.first), 0, out)
  {
    var m0 := Running(INITIAL, 0, 0, out);
    RunSeparators(out, e.lead);
    RunConcat(m0, e.lead, e.first);
    RunConcat(m0, e.lead + e.first, e.ws1);
    RunConcat(m0, e.lead + e.first + e.ws1, "-");
    if e.first != "" {
      RunFirst(out, e.first);
      RunWhite(Running(STARTNUM, Number(e.first), 0, out), e.ws1);
    }
    var m1 := Run(m0, e.lead + e.first + e.ws1);
    assert Run(m1, "-") == Step(Run(m1, ""), '-');
  }

  lemma RunElement(out: seq<Spec>, e: Element)
    requires GoodElement(e)
    ensures Run(Running(INITIAL, 0, 0, out), Text(e)) == Pending(out, e)
  {
    var m0 := Running(INITIAL, 0, 0, out);
    var head := e.lead + e.first + e.ws1 + "-";
    var m1 := Running(GAP2, Number(e.first), 0, out);
    RunUpToHyphen(out, e);
    RunConcat(m0, head, e.ws2);
    RunConcat(m0, head + e.ws2, e.last);
    RunWhite(m1, e.ws2);
    if e.last != "" {
      RunLast(m1.start, out, e.last);
    }
  }

  lemma {:induction false} RejectedStays(m: Machine, s: string)
    requires m.Rejected?
    ensures Run(m, s) == m
  {
    if s != "" {
      RejectedStays(m, s[..|s| - 1]);
    }
  }

  /** A separator, or the end, submits a pending element. */
  lemma RunSubmit(out: seq<Spec>, e: Element, lead: string)
    requires GoodElement(e) && Separates(e.last != "", lead)
    ensures var m := Run(Pending(out, e), lead);
            if Forbidden(Denote(e)) then m == Rejected(out) else m == Running(INITIAL, 0, 0, out + [Denote(e)])
  {
    var m, c, rest := Pending(out, e), lead[0], lead[1..];
    assert lead == [c] + rest;
    RunConcat(m, [c], rest);
    assert Run(m, [c]) == Step(Run(m, ""), c);
    if Forbidden(Denote(e)) {
      RejectedStays(Rejected(out), rest);
    } else {
      RunSeparators(out + [Denote(e)], rest);
    }
  }

  /** The text of the next element first submits the pending one. */
  lemma RunNext(out: seq<Spec>, p: Element, e: Element)
    requires GoodElement(p) && GoodElement(e) && Separates(p.last != "", e.lead)
    ensures var m := Run(Pending(out, p), Text(e));
            if Forbidden(Denote(p)) then m == Rejected(out) else m == Pending(out + [Denote(p)], e)
  {
    var tail := e.(lead := "");
    assert Text(e) == e.lead + Text(tail);
    RunConcat(Pending(out, p), e.lead, Text(tail));
    RunSubmit(out, p, e.lead);
    if Forbidden(Denote(p)) {
      RejectedStays(Rejected(out), Text(tail));
    } else {
      RunElement(out + [Denote(p)], tail);
    }
  }

  lemma NoneForbiddenAppended(specs: seq<Spec>, r: Spec)
    ensures NoneForbidden(specs + [r]) <==> NoneForbidden(specs) && !Forbidden(r)
  {
    assert (specs + [r])[|specs|] == r;
    assert forall i :: 0 <= i < |specs| ==> (specs + [r])[i] == specs[i];
  }

  /** The machine after the texts of `ds` and `e`: `e` is pending, unless a spec before it was refused. */
  lemma {:induction false} RunTexts(ds: seq<Element>, e: Element)
    requires GoodList(ds) && GoodElement(e) && GoodLead(ds, e.lead)
    ensures var m := Run(START, Texts(ds) + Text(e));
            if NoneForbidden(Denotes(ds)) then m == Pending(Denotes(ds), e) else m.Rejected?
  {
    RunConcat(START, Texts(ds), Text(e));
    if ds == [] {
      RunElement([], e);
    } else {
      var init, p := ds[..|ds| - 1], ds[|ds| - 1];
      RunTexts(init, p);
      NoneForbiddenAppended(Denotes(init), Denote(p));
      if NoneForbidden(Denotes(init)) {
        RunNext(Denotes(init), p, e);
      } else {
        RejectedStays(Run(START, Texts(ds)), Text(e));
      }
    }
  }

  /** The end of the text, after separators or not, submits the pending element too. */
  lemma RunEnd(out: seq<Spec>, e: Element, trail: string)
    requires GoodElement(e) && (trail == "" || Separates(e.last != "", trail))
    ensures var m := Step(Run(Pending(out, e), trail), '\0');
            if Forbidden(Denote(e)) then m == Rejected(out) else m == Accepted(out + [Denote(e)])
  {
    if trail != "" {
      RunSubmit(out, e, trail);
    }
  }

  /** Completeness: every byte-range set is accepted with the list it denotes, unless one of its
      specs is the pair (2^32-1, 2^32-1) that the code takes for "neither was specified". */
  lemma Completeness(ds: seq<Element>, trail: string)
    requires ByteRangeSet(ds, trail)
    ensures if NoneForbidden(Denotes(ds)) then ParseSet(Texts(ds) + trail) == Accepted(Denotes(ds))
            else ParseSet(Texts(ds) + trail).Rejected?
  {
    RunConcat(START, Texts(ds), trail);
    if ds == [] {
      RunSeparators([], trail);
    } else {
      var init, e := ds[..|ds| - 1], ds[|ds| - 1];
      RunTexts(init, e);
      NoneForbiddenAppended(Denotes(init), Denote(e));
      if NoneForbidden(Denotes(init)) {
        RunEnd(Denotes(init), e, trail);
      } else {
        RejectedStays(Run(START, Texts(ds)), trail);
      }
    }
  }

  /** `s` is a byte-range set none of whose specs is refused. */
  ghost predicate Derives(ds: seq<Element>, trail: string, s: string) {
    ByteRangeSet(ds, trail) && s == Texts(ds) + trail && NoneForbidden(Denotes(ds))
  }

  /** The table accepts exactly the language of the grammar. */
  lemma AcceptsExactly(s: string)
    requires '\0' !in s
    ensures ParseSet(s).Accepted? <==> exists ds, trail :: Derives(ds, trail, s)
  {
    if ParseSet(s).Accepted? {
      var ds, trail := Soundness(s);
      assert Derives(ds, trail, s);
    }
    forall ds, trail | Derives(ds, trail, s)
      ensures ParseSet(s).Accepted?
    {
      Completeness(ds, trail);
    }
  }

  // ----- Which accepted sets conform to RFC 2616 -------------------------------------

  /** Section 14.35.1 of RFC 2616 wants at least one spec, and a first or a last number in each. */
  predicate Conforms(ds: seq<Element>) {
    ds != [] && forall i :: 0 <= i < |ds| ==> ds[i].first != "" || ds[i].last != ""
  }

  /** The next character from `k` on that is not white space is a digit. */
  predicate DigitNext(s: string, k: nat)
    decreases |s| - k
  {
    k < |s| && (IsDigit(s[k]) || (IsWhite(s[k]) && DigitNext(s, k + 1)))
  }

  /** A hyphen that the table meets in its initial row, with no number behind it. */
  predicate BareAt(s: string, i: nat) {
    i < |s| && s[i] == '-' && !DigitNext(s, i + 1)
    && var m := Run(START, s[..i]); m.Running? && m.mode == INITIAL
  }

  lemma {:induction false} TextsConcat(a: seq<Element>, b: seq<Element>)
    ensures Texts(a + b) == Texts(a) + Texts(b)
  {
    if b == [] {
      assert a + b == a;
    } else {
      assert (a + b)[..|a + b| - 1] == a + b[..|b| - 1];
      TextsConcat(a, b[..|b| - 1]);
    }
  }

  lemma {:induction false} DenotesAt(ds: seq<Element>, k: nat)
    requires (forall i :: 0 <= i < |ds| ==> GoodElement(ds[i])) && k <= |ds|
    ensures |Denotes(ds)| == |ds| && Denotes(ds[..k]) == Denotes(ds)[..k]
  {
    if k == |ds| {
      assert ds[..k] == ds;
      if ds != [] {
        DenotesAt(ds[..|ds| - 1], |ds| - 1);
      }
    } else {
      DenotesAt(ds[..|ds| - 1], k);
      assert ds[..|ds| - 1][..k] == ds[..k];
    }
  }

  lemma {:induction false} TextsOne(e: Element)
    ensures Texts([e]) == Text(e)
  {
    assert [e][..0] == [] && Texts([e]) == "" + Text(e);
  }

  lemma {:induction false} Regrouped(a: string, b: string, c: string, d: string)
    ensures a + (b + "-" + c) + d == (a + b) + "-" + (c + d)
  {
  }

  /** The text of a set around the hyphen of its spec `k`. */
  function Before(ds: seq<Element>, k: nat): string
    requires k < |ds|
  {
    Texts(ds[..k]) + (ds[k].lead + ds[k].first + ds[k].ws1)
  }

  function Behind(ds: seq<Element>, trail: string, k: nat): string
    requires k < |ds|
  {
    ds[k].ws2 + ds[k].last + (Texts(ds[k + 1..]) + trail)
  }

  lemma {:induction false} AroundHyphen(ds: seq<Element>, trail: string, k: nat)
    requires k < |ds|
    ensures Texts(ds) + trail == Before(ds, k) + "-" + Behind(ds, trail, k)
  {
    hide Texts;
    var e, rest := ds[k], ds[k + 1..];
    assert ds == ds[..k] + ([e] + rest);
    TextsConcat(ds[..k], [e] + rest);
    TextsConcat([e], rest);
    TextsOne(e);
    Regrouped(Texts(ds[..k]), e.lead + e.first + e.ws1, e.ws2 + e.last, Texts(rest) + trail);
    assert Text(e) == (e.lead + e.first + e.ws1) + "-" + (e.ws2 + e.last);
    assert (Texts(ds[..k]) + (Text(e) + Texts(rest))) + trail == Texts(ds[..k]) + Text(e) + (Texts(rest) + trail);
  }

  /** The row in which the table meets that hyphen. */
  lemma {:induction false} RowAtHyphen(ds: seq<Element>, k: nat)
    requires k < |ds| && GoodList(ds) && NoneForbidden(Denotes(ds)) && (k == 0 ==> AllSeparators(ds[0].lead))
    ensures var m := Run(START, Before(ds, k));
            m.Running? && (m.mode == INITIAL <==> ds[k].first == "")
  {
    hide Texts, Denotes, Number;
    var e, out := ds[k], Denotes(ds[..k]);
    var tail := e.first + e.ws1;
    assert Before(ds, k) == (Texts(ds[..k]) + e.lead) + tail;
    RunLead(ds, k);
    var m := Running(INITIAL, 0, 0, out);
    RunConcat(START, Texts(ds[..k]) + e.lead, tail);
    RunConcat(m, e.first, e.ws1);
    if e.first != "" {
      RunFirst(out, e.first);
      RunWhite(Running(STARTNUM, Number(e.first), 0, out), e.ws1);
    } else {
      assert tail == "";
    }
  }

  lemma {:induction false} NothingRead()
    ensures Texts([]) == "" && Denotes([]) == [] && Run(START, "") == START
  {
  }

  /** If none of the specs is refused, neither are the first ones. */
  lemma {:induction false} PrefixAllowed(ds: seq<Element>, k: nat)
    requires k <= |ds| && GoodList(ds) && NoneForbidden(Denotes(ds))
    ensures NoneForbidden(Denotes(ds[..k]))
    ensures k > 0 ==> !Forbidden(Denote(ds[k - 1])) && NoneForbidden(Denotes(ds[..k - 1]))
                      && Denotes(ds[..k]) == Denotes(ds[..k - 1]) + [Denote(ds[k - 1])]
  {
    hide Number, Forbidden, Denote;
    DenotesAt(ds, k);
    if k > 0 {
      DenotesAt(ds, k - 1);
      assert ds[..k][..k - 1] == ds[..k - 1];
      assert Denotes(ds[..k])[k - 1] == Denotes(ds)[k - 1];
    }
  }

  lemma {:induction false} RunLead(ds: seq<Element>, k: nat)
    requires k < |ds| && GoodList(ds) && NoneForbidden(Denotes(ds))
    ensures Run(START, Texts(ds[..k]) + ds[k].lead) == Running(INITIAL, 0, 0, Denotes(ds[..k]))
  {
    hide Number, Forbidden, NoneForbidden, Run, Denotes, Texts;
    PrefixAllowed(ds, k);
    RunConcat(START, Texts(ds[..k]), ds[k].lead);
    if k == 0 {
      assert ds[..0] == [];
      NothingRead();
      RunSeparators([], ds[0].lead);
    } else {
      var init, p := ds[..k - 1], ds[k - 1];
      TextsConcat(init, [p]);
      TextsOne(p);
      assert ds[..k] == init + [p];
      RunTexts(init, p);
      RunSubmit(Denotes(init), p, ds[k].lead);
    }
  }

  lemma {:induction false} WhiteThenDigit(before: string, ws: string, last: string, rest: string)
    requires AllWhite(ws) && AllDigits(last) && (last == "" ==> rest == "" || rest[0] == ',')
    ensures DigitNext(before + ws + last + rest, |before|) <==> last != ""
    decreases |ws|
  {
    var s := before + ws + last + rest;
    if ws == "" {
      assert last != "" ==> s[|before|] == last[0];
      assert last == "" && rest != "" ==> s[|before|] == rest[0];
    } else {
      assert s[|before|] == ws[0];
      WhiteThenDigit(before + [ws[0]], ws[1..], last, rest);
      assert before + [ws[0]] + ws[1..] + last + rest == s;
    }
  }

  /** What follows a spec without a last number begins with a comma. */
  lemma {:induction false} CommaBehind(ds: seq<Element>, trail: string, k: nat)
    requires ByteRangeSet(ds, trail) && k < |ds| && ds[k].last == ""
    ensures var rest := Texts(ds[k + 1..]) + trail; rest == "" || rest[0] == ','
  {
    if k + 1 < |ds| {
      var e := ds[k + 1];
      assert Separates(ds[k].last != "", e.lead);
      assert ds[k + 1..] == [e] + ds[k + 2..];
      TextsConcat([e], ds[k + 2..]);
      TextsOne(e);
      assert Text(e)[0] == e.lead[0];
    }
  }

  /** The hyphen of a spec is bare exactly when the spec has neither number. */
  lemma {:induction false} BareHyphen(ds: seq<Element>, trail: string, s: string, k: nat)
    requires Derives(ds, trail, s) && k < |ds|
    ensures var h := |Before(ds, k)|;
            h < |s| && s[h] == '-' && (BareAt(s, h) <==> ds[k].first == "" && ds[k].last == "")
  {
    hide Texts, Denotes, Number, DigitNext, Separates;
    var h, rest := |Before(ds, k)|, Texts(ds[k + 1..]) + trail;
    AroundHyphen(ds, trail, k);
    RowAtHyphen(ds, k);
    if ds[k].last == "" {
      CommaBehind(ds, trail, k);
    }
    WhiteThenDigit(Before(ds, k) + "-", ds[k].ws2, ds[k].last, rest);
    assert Before(ds, k) + "-" + ds[k].ws2 + ds[k].last + rest == s;
    assert s[..h] == Before(ds, k);
  }

  lemma {:induction false} SeparatorsOnly(trail: string)
    requires AllSeparators(trail)
    ensures '-' !in trail
  {
  }

  lemma {:induction false} OneHyphen(e: Element)
    requires GoodElement(e)
    ensures '-' !in e.lead + e.first + e.ws1 && '-' !in e.ws2 + e.last
  {
  }

  lemma {:induction false} SomeSpec(ds: seq<Element>, trail: string, i: nat)
    requires '-' !in trail && i < |Texts(ds) + trail| && (Texts(ds) + trail)[i] == '-'
    ensures ds != []
  {
  }

  /** Every hyphen of a set is that of one of its specs. */
  lemma {:induction false} HyphenOfSpec(ds: seq<Element>, trail: string, i: nat) returns (k: nat)
    requires forall j :: 0 <= j < |ds| ==> GoodElement(ds[j])
    requires AllSeparators(trail) && i < |Texts(ds) + trail| && (Texts(ds) + trail)[i] == '-'
    ensures k < |ds| && i == |Before(ds, k)|
  {
    hide Texts, GoodElement;
    SeparatorsOnly(trail);
    SomeSpec(ds, trail, i);
    var init, e := ds[..|ds| - 1], ds[|ds| - 1];
    TextsConcat(init, [e]);
    assert init + [e] == ds;
    if i < |Texts(init)| {
      k := HyphenOfSpec(init, "", i);
      assert init[..k] == ds[..k];
    } else {
      k := |ds| - 1;
      NothingRead();
      AroundHyphen(ds, trail, k);
      assert ds[k + 1..] == [] && "" + trail == trail;
      OneHyphen(e);
      HyphenAlone(Texts(init), e.lead + e.first + e.ws1, e.ws2 + e.last + trail, Texts(ds) + trail, i);
    }
  }

  /** Nothing but the hyphen of a spec is one. */
  lemma {:induction false} HyphenAlone(a: string, b: string, c: string, s: string, i: nat)
    requires s == a + b + "-" + c && |a| <= i < |s| && s[i] == '-' && '-' !in b && '-' !in c
    ensures i == |a + b|
  {
    forall j | |a| <= j < |a + b|
      ensures s[j] != '-'
    {
      assert s[j] == b[j - |a|];
    }
    forall j | |a + b| < j < |s|
      ensures s[j] != '-'
    {
      assert s[j] == c[j - |a + b| - 1];
    }
  }

  /** A string that is accepted conforms exactly when it has a hyphen, and none that is bare. */
  lemma {:induction false} ConformsExactly(s: string, ds: seq<Element>, trail: string)
    requires Derives(ds, trail, s)
    ensures Conforms(ds) <==> '-' in s && !exists i :: 0 <= i < |s| && BareAt(s, i)
  {
    hide Texts, Denotes, BareAt;
    forall k | 0 <= k < |ds|
      ensures |Before(ds, k)| < |s| && s[|Before(ds, k)|] == '-'
      ensures BareAt(s, |Before(ds, k)|) <==> ds[k].first == "" && ds[k].last == ""
    {
      BareHyphen(ds, trail, s, k);
    }
    forall i | 0 <= i < |s| && s[i] == '-'
      ensures exists k :: 0 <= k < |ds| && i == |Before(ds, k)|
    {
      var k := HyphenOfSpec(ds, trail, i);
    }
    forall i | 0 <= i < |s| && BareAt(s, i)
      ensures s[i] == '-'
    {
      BareIsHyphen(s, i);
    }
    if '-' in s {
      var i :| 0 <= i < |s| && s[i] == '-';
      assert exists k :: 0 <= k < |ds| && i == |Before(ds, k)|;
    }
    if ds != [] {
      assert s[|Before(ds, 0)|] == '-';
    }
  }

  /** Of the strings that the table accepts, those are in the language of the standard, with the code's
      separators, that have a hyphen and no bare one. */
  lemma {:induction false} ConformingStrings(s: string)
    requires '\0' !in s && ParseSet(s).Accepted?
    ensures (exists ds, trail :: Derives(ds, trail, s) && Conforms(ds))
            <==> '-' in s && !exists i :: 0 <= i < |s| && BareAt(s, i)
  {
    hide BareAt, Conforms;
    var ds0, trail0 := Soundness(s);
    assert Derives(ds0, trail0, s);
    ConformsExactly(s, ds0, trail0);
    forall ds, trail | Derives(ds, trail, s) && Conforms(ds)
      ensures '-' in s && !exists i :: 0 <= i < |s| && BareAt(s, i)
    {
      ConformsExactly(s, ds, trail);
    }
  }

  lemma {:induction false} BareIsHyphen(s: string, i: nat)
    requires BareAt(s, i)
    ensures i < |s| && s[i] == '-'
  {
  }

  /** The test "neither start nor stop were specified" fires exactly on a spec both of whose numbers
      are there and are 2^32-1 modulo 2^64: never where neither is. */
  lemma {:induction false} NeitherTestExactly(e: Element)
    requires GoodElement(e)
    ensures Forbidden(Denote(e)) <==>
              && e.first != "" && Decimal(e.first) % WRAP == UNSIGNED_MINUS_ONE
              && e.last != "" && Decimal(e.last) % WRAP == UNSIGNED_MINUS_ONE
  {
    AccumulatedIsDecimal(e.first);
    AccumulatedIsDecimal(e.last);
  }

  /** So a hyphen alone is accepted, with both numbers missing, and so is nothing at all. */
  lemma {:induction false} HyphenAccepted()
    ensures ParseSet("-") == Accepted([Spec(NOT_GIVEN, NOT_GIVEN)]) && ParseSet("") == Accepted([])
  {
    var e := NOTHING;
    TextsOne(e);
    assert [e][..0] == [] && Denotes([e]) == [] + [Denote(e)];
    Completeness([e], "");
    Completeness([], "");
    assert "-" + "" == "-" && Texts([]) + "" == "";
  }

  // ----- Printing -----------------------------------------------------------------

  function Digits(n: nat): (s: string)
    ensures s != "" && AllDigits(s) && Decimal(s) == n
  {
    var last := ['0' + (n % 10) as char];
    if n < 10 then last
    else
      var s := Digits(n / 10) + last;
      assert s[..|s| - 1] == Digits(n / 10);
      s
  }

  function PrintNumber(n: nat): string { if n == NOT_GIVEN then "" else Digits(n) }

  /** White space: in front of a spec, before and after its hyphen, and behind it. */
  datatype Pad = Pad(front: string, left: string, right: string, back: string)

  predicate Blank(s: string) {
    forall i :: 0 <= i < |s| ==> s[i] in {' ', '\t', '\n', '\U{0B}', '\U{0C}', '\r'}
  }

  predicate Blanks(p: Pad) { Blank(p.front) && Blank(p.left) && Blank(p.right) && Blank(p.back) }

  /** "a-b", "a-" or "-n", as section 14.35.1 of RFC 2616 writes it, with white space. */
  function Print(r: Spec, p: Pad): string
    requires 0 <= r.start < WRAP && 0 <= r.stop < WRAP
  {
    p.front + PrintNumber(r.start) + p.left + "-" + p.right + PrintNumber(r.stop) + p.back
  }

  predicate Storable(specs: seq<Spec>) {
    forall i :: 0 <= i < |specs| ==> 0 <= specs[i].start < WRAP && 0 <= specs[i].stop < WRAP
  }

  function PrintAll(specs: seq<Spec>, pads: seq<Pad>): string
    requires Storable(specs) && |pads| == |specs|
  {
    if specs == [] then ""
    else
      var n := |specs| - 1;
      PrintAll(specs[..n], pads[..n]) + (if n > 0 then "," else "") + Print(specs[n], pads[n])
  }

  lemma PrintedNumber(n: nat)
    requires n < WRAP
    ensures AllDigits(PrintNumber(n)) && Number(PrintNumber(n)) == n
  {
    AccumulatedIsDecimal(PrintNumber(n));
  }

  lemma BlankIsWhite(p: Pad)
    requires Blanks(p)
    ensures AllWhite(p.front) && AllWhite(p.left) && AllWhite(p.right) && AllWhite(p.back)
  {
  }

  lemma WhiteConcat(a: string, b: string)
    ensures AllWhite(a) && AllWhite(b) ==> AllWhite(a + b) && AllSeparators(a + b)
    ensures AllSeparators(a) && AllSeparators(b) ==> AllSeparators(a + b)
  {
  }

  /** A printed spec as an element: white space that no hyphen or number keeps apart from the separators
      belongs to them. */
  lemma PrintedElement(r: Spec, p: Pad, lead: string) returns (e: Element, trail: string)
    requires 0 <= r.start < WRAP && 0 <= r.stop < WRAP && Blanks(p) && AllSeparators(lead)
    ensures GoodElement(e) && lead <= e.lead && Text(e) + trail == lead + Print(r, p) && Denote(e) == r
    ensures AllWhite(trail) && (e.last == "" ==> trail == "")
  {
    hide PrintNumber, Number, AllWhite, AllSeparators, AllDigits, Blanks, Text;
    var first, last := PrintNumber(r.start), PrintNumber(r.stop);
    BlankIsWhite(p);
    NoneIsWhite();
    PrintedNumber(r.start);
    PrintedNumber(r.stop);
    WhiteConcat(p.front, "");
    WhiteConcat(p.front, p.left);
    WhiteConcat(p.right, p.back);
    WhiteConcat(lead, p.front + "");
    WhiteConcat(lead, p.front + p.left);
    e := Element(lead + (p.front + if first == "" then p.left else ""), first, if first == "" then "" else p.left,
                 if last == "" then p.right + p.back else p.right, last);
    trail := if last == "" then "" else p.back;
    PaddedText(lead, p, first, last);
  }

  lemma PaddedText(lead: string, p: Pad, first: string, last: string)
    ensures var e := Element(lead + (p.front + if first == "" then p.left else ""), first, if first == "" then "" else p.left,
                             if last == "" then p.right + p.back else p.right, last);
            Text(e) + (if last == "" then "" else p.back) == lead + (p.front + first + p.left + "-" + p.right + last + p.back)
  {
  }

  lemma NoneIsWhite()
    ensures AllWhite("")
  {
  }

  lemma PrintAllAppended(specs: seq<Spec>, pads: seq<Pad>, r: Spec, p: Pad)
    requires Storable(specs) && 0 <= r.start < WRAP && 0 <= r.stop < WRAP && |pads| == |specs|
    ensures Storable(specs + [r])
    ensures PrintAll(specs + [r], pads + [p]) == PrintAll(specs, pads) + ((if specs == [] then "" else ",") + Print(r, p))
  {
    hide Print, Digits, PrintNumber;
    var longer, more := specs + [r], pads + [p];
    assert longer[..|specs|] == specs && longer[|specs|] == r && more[..|specs|] == pads && more[|specs|] == p;
    var text, comma := Print(r, p), if specs == [] then "" else ",";
    assert PrintAll(specs, pads) + comma + text == PrintAll(specs, pads) + (comma + text);
  }

  lemma LeadOf(before: string, comma: string)
    requires AllWhite(before) && comma in {"", ","}
    ensures AllSeparators(before + comma)
  {
  }

  /** Behind the specs `ds` and the white space after them a comma and the next spec may follow. */
  lemma Led(ds: seq<Element>, before: string, comma: string, e: Element)
    requires GoodElement(e) && before + comma <= e.lead && (before == "" || Closed(ds))
    requires comma == if ds == [] then "" else ","
    ensures GoodLead(ds, e.lead)
  {
    assert before == "" && ds != [] ==> (before + comma)[0] == ',';
  }

  lemma Trailed(texts: string, before: string, comma: string, printed: string, text: string, trail: string)
    requires text + trail == (before + comma) + printed
    ensures (texts + text) + trail == (texts + before) + (comma + printed)
  {
    assert (texts + text) + trail == texts + (text + trail);
  }

  /** The printed list as a list of elements. */
  lemma {:induction false} PrintedElements(specs: seq<Spec>, pads: seq<Pad>) returns (ds: seq<Element>, trail: string)
    requires Storable(specs) && |pads| == |specs| && forall p <- pads :: Blanks(p)
    ensures GoodList(ds) && |ds| == |specs| && Texts(ds) + trail == PrintAll(specs, pads) && Denotes(ds) == specs
    ensures AllWhite(trail) && (trail == "" || Closed(ds))
  {
    hide Print, Blanks, Number, GoodElement, Text, AllWhite, AllSeparators;
    NoneIsWhite();
    if specs == [] {
      ds, trail := [], "";
    } else {
      var n := |specs| - 1;
      var r, p := specs[n], pads[n];
      assert specs == specs[..n] + [r] && pads == pads[..n] + [p];
      var init, before := PrintedElements(specs[..n], pads[..n]);
      var comma := if n == 0 then "" else ",";
      LeadOf(before, comma);
      var e;
      e, trail := PrintedElement(r, p, before + comma);
      PrintAllAppended(specs[..n], pads[..n], r, p);
      Led(init, before, comma, e);
      DenotesAppended(init, e);
      ds := init + [e];
      Trailed(Texts(init), before, comma, Print(r, p), Text(e), trail);
    }
  }

  /** Parsing the printed form of a list, with any white space, gives the list back, in order, exactly
      when no spec has both numbers equal to 2^32-1. */
  lemma PrintParse(specs: seq<Spec>, pads: seq<Pad>)
    requires Storable(specs) && |pads| == |specs| && forall p <- pads :: Blanks(p)
    ensures ParseSet(PrintAll(specs, pads)) == Accepted(specs) <==> NoneForbidden(specs)
  {
    hide Blanks, GoodList, PrintAll;
    var ds, trail := PrintedElements(specs, pads);
    TrailIsLead(ds, trail);
    Completeness(ds, trail);
  }

  lemma TrailIsLead(ds: seq<Element>, trail: string)
    requires AllWhite(trail) && (trail == "" || Closed(ds))
    ensures trail == "" || GoodLead(ds, trail)
  {
  }
}
