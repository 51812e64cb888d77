/** What `parseItinerary` promises, proved about the fold that specifies it. */
module ItineraryProperties {
  import opened Text
  import opened Common
  import opened Patterns
  import opened Itinerary

  // ---------------------------------------------------------------------------
  // One line at a time

  /** A header line closes the current day, if any, and opens a new day with the number
      and location of the header and three empty sections. The section and the accumulator
      carry over. */
  lemma StepHeader(st: State, line: string)
    requires MatchDayHeader(line).Some?
    ensures var h := MatchDayHeader(line).value;
            Step(st, line) == State(st.days + Emitted(st.current), Some(ItineraryDay(h.number, h.location, NoActivities)), st.section, st.pending)
  {
  }

  /** A marker line that is not a header sets the section, by the first marker it contains
      in the order morning, afternoon, evening, and changes nothing else. */
  lemma StepMarker(st: State, line: string)
    requires MatchDayHeader(line).None?
    requires Contains(line, MorningMarker) || Contains(line, AfternoonMarker) || Contains(line, EveningMarker)
    ensures Step(st, line) == st.(section := Some(
              if Contains(line, MorningMarker) then Morning
              else if Contains(line, AfternoonMarker) then Afternoon
              else Evening))
  {
  }

  /** Before a day is open, or before a section is chosen, a line that is neither a header
      nor a marker changes nothing. */
  lemma StepOutside(st: State, line: string)
    requires MatchDayHeader(line).None? && SectionMarker(line).None?
    requires st.current.None? || st.section.None?
    ensures Step(st, line) == st
  {
  }

  /** Inside a day and a section, any other line is read as a bullet and then as a tip. */
  lemma StepInSection(st: State, line: string)
    requires MatchDayHeader(line).None? && SectionMarker(line).None?
    requires st.current.Some? && st.section.Some?
    ensures Step(st, line) == InSection(st.current.value, st.section.value, st, line)
  {
  }

  /** A line that is not a header never touches the days already pushed, keeps the current
      day's number and location, and changes no section other than the current one. */
  lemma StepKeepsOtherSections(st: State, line: string)
    requires MatchDayHeader(line).None?
    ensures Step(st, line).days == st.days
    ensures Step(st, line).current.Some? <==> st.current.Some?
    ensures st.current.Some? ==>
              var d, e := st.current.value, Step(st, line).current.value;
              e.day == d.day && e.location == d.location
              && forall t :: st.section != Some(t) ==> e.sections.Get(t) == d.sections.Get(t)
  {
    if SectionMarker(line).None? && st.current.Some? && st.section.Some? {
      var d, s := st.current.value, st.section.value;
      var r := BulletLine(d, s, st.pending, line);
      assert Step(st, line).current.value == TipLine(r.0, s, line);
    }
  }

  /** A bullet whose title is not empty appends exactly one activity to the section: its
      title, the location, time and cost found in the content or else kept from earlier
      bullets, and no tip. The accumulator is then reset. */
  lemma BulletPushes(d: ItineraryDay, s: Section, p: Pending, content: string)
    requires Title(content) != []
    ensures var r := Bullet(d, s, p, content);
            var q := Absorb(p, content);
            r.0.sections.Get(s) == d.sections.Get(s) + [Activity(Title(content), q.location, q.time, q.cost, None)]
            && r.1 == Blank
  {
  }

  /** A bullet whose title strips to nothing adds no activity, and the accumulator keeps
      every field the content does not set, for the next bullet that is pushed. */
  lemma BulletKeeps(d: ItineraryDay, s: Section, p: Pending, content: string)
    requires Title(content) == []
    ensures Bullet(d, s, p, content).0 == d
    ensures var q := Bullet(d, s, p, content).1;
            (LocationOf(content).None? ==> q.location == p.location)
            && (TokenOf(Time, content).None? ==> q.time == p.time)
            && (TokenOf(Cost, content).None? ==> q.cost == p.cost)
  {
  }

  /** A tip is set on the last activity of the section, which otherwise keeps its fields;
      the other activities stay as they were. */
  lemma TipSetsLast(d: ItineraryDay, s: Section, tip: string)
    requires |d.sections.Get(s)| > 0
    ensures var acts, acts' := d.sections.Get(s), AttachTip(d, s, tip).sections.Get(s);
            |acts'| == |acts| && acts'[..|acts| - 1] == acts[..|acts| - 1]
            && acts'[|acts| - 1] == acts[|acts| - 1].(tip := Some(tip))
  {
  }

  /** A tip in an empty section is dropped. */
  lemma TipDropped(d: ItineraryDay, s: Section, tip: string)
    requires |d.sections.Get(s)| == 0
    ensures AttachTip(d, s, tip) == d
  {
  }

  /** A later tip overwrites an earlier one: only the last tip of a run of tips counts. */
  lemma TipOverwrites(d: ItineraryDay, s: Section, tip1: string, tip2: string)
    ensures AttachTip(AttachTip(d, s, tip1), s, tip2) == AttachTip(d, s, tip2)
  {
    var acts := d.sections.Get(s);
    if |acts| > 0 {
      var n := |acts|;
      var acts1 := AttachTip(d, s, tip1).sections.Get(s);
      assert acts1[..n - 1] == acts[..n - 1];
      assert acts1[n - 1].(tip := Some(tip2)) == acts[n - 1].(tip := Some(tip2));
      assert acts1[..n - 1] + [acts1[n - 1].(tip := Some(tip2))] == acts[..n - 1] + [acts[n - 1].(tip := Some(tip2))];
    }
  }

  // ---------------------------------------------------------------------------
  // What carries over from one line to the next

  /** The loop switches section on `line`: it is a marker line and not a header. */
  predicate MarkerLine(line: string) {
    MatchDayHeader(line).None? && SectionMarker(line).Some?
  }

  /** Only a marker line changes the section, and it sets it to its own. */
  lemma StepSection(st: State, line: string)
    ensures Step(st, line).section == if MarkerLine(line) then SectionMarker(line) else st.section
  {
  }

  /** The last line of a run sets the section only when it is a marker line. */
  lemma RunLastSection(st: State, lines: seq<string>)
    requires |lines| > 0
    ensures var init, last := lines[..|lines| - 1], lines[|lines| - 1];
            Run(st, lines).section == if MarkerLine(last) then SectionMarker(last) else Run(st, init).section
  {
    StepSection(Run(st, lines[..|lines| - 1]), lines[|lines| - 1]);
  }

  /** After a run of lines the section is that of the last marker line, the one at index
      `k`; when there is none (`k == -1`) it is the section the run started with. */
  lemma {:induction false} RunSection(st: State, lines: seq<string>) returns (k: int)
    ensures -1 <= k < |lines|
    ensures forall j :: k < j < |lines| ==> !MarkerLine(lines[j])
    ensures k == -1 ==> Run(st, lines).section == st.section
    ensures 0 <= k ==> MarkerLine(lines[k]) && Run(st, lines).section == SectionMarker(lines[k])
    decreases |lines|
  {
    if |lines| == 0 {
      k := -1;
    } else {
      var init, last := lines[..|lines| - 1], lines[|lines| - 1];
      var k0 := RunSection(st, init);
      RunLastSection(st, lines);
      if MarkerLine(last) {
        k := |lines| - 1;
      } else {
        k := k0;
        if 0 <= k {
          assert lines[k] == init[k];
        }
        forall j | k < j < |lines| ensures !MarkerLine(lines[j]) {
          if j < |lines| - 1 {
            assert lines[j] == init[j];
          }
        }
      }
    }
  }

  /** The three fields of the accumulator. */
  datatype Field = LocationField | TimeField | CostField

  /** Field `f` of the accumulator. */
  function FieldOf(p: Pending, f: Field): Option<string> {
    match f
    case LocationField => p.location
    case TimeField => p.time
    case CostField => p.cost
  }

  /** Field `f` as the content of a bullet sets it, if at all. */
  function FoundIn(f: Field, content: string): Option<string> {
    match f
    case LocationField => LocationOf(content)
    case TimeField => TokenOf(Time, content)
    case CostField => TokenOf(Cost, content)
  }

  /** The loop reads `line` as a bullet in state `st`: it is neither a header nor a marker,
      a day and a section are open, and it matches the bullet pattern. */
  predicate ReadsBullet(st: State, line: string) {
    MatchDayHeader(line).None? && SectionMarker(line).None? && st.current.Some? && st.section.Some?
    && MatchActivity(line).Some?
  }

  /** `line`, read in state `st`, decides field `f` of the accumulator: it is a bullet that
      is pushed, which resets the field, or one whose content sets the field. */
  predicate Decides(f: Field, st: State, line: string) {
    ReadsBullet(st, line)
    && (Title(MatchActivity(line).value) != [] || FoundIn(f, MatchActivity(line).value).Some?)
  }

  /** The value a deciding bullet leaves in field `f`: none after a push, and otherwise the
      value its content sets. */
  function Decided(f: Field, line: string): Option<string>
    requires MatchActivity(line).Some?
  {
    var c := MatchActivity(line).value;
    if Title(c) != [] then None else FoundIn(f, c)
  }

  /** One line changes field `f` of the accumulator only when it decides it. */
  lemma StepPending(st: State, line: string, f: Field)
    ensures !Decides(f, st, line) ==> FieldOf(Step(st, line).pending, f) == FieldOf(st.pending, f)
    ensures Decides(f, st, line) ==> FieldOf(Step(st, line).pending, f) == Decided(f, line)
  {
    if MatchDayHeader(line).None? && SectionMarker(line).None? && st.current.Some? && st.section.Some? {
      var d, s := st.current.value, st.section.value;
      assert Step(st, line).pending == BulletLine(d, s, st.pending, line).1;
    }
  }

  /** The last line of a run changes field `f` of the accumulator only when it decides it. */
  lemma RunLastPending(st: State, lines: seq<string>, f: Field)
    requires |lines| > 0
    ensures var init, last := lines[..|lines| - 1], lines[|lines| - 1];
            FieldOf(Run(st, lines).pending, f)
              == if Decides(f, Run(st, init), last) then Decided(f, last) else FieldOf(Run(st, init).pending, f)
  {
    StepPending(Run(st, lines[..|lines| - 1]), lines[|lines| - 1], f);
  }

  /** After a run of lines, field `f` of the accumulator holds what the last line to decide
      it left there, the one at index `k`; when no line decides it (`k == -1`) it holds what
      it held when the run started. Lines that are not bullets, and bullets that neither are
      pushed nor set the field, carry it over unchanged. */
  lemma {:induction false} RunCarries(st: State, lines: seq<string>, f: Field) returns (k: int)
    ensures -1 <= k < |lines|
    ensures forall j :: k < j < |lines| ==> !Decides(f, Run(st, lines[..j]), lines[j])
    ensures k == -1 ==> FieldOf(Run(st, lines).pending, f) == FieldOf(st.pending, f)
    ensures 0 <= k ==> Decides(f, Run(st, lines[..k]), lines[k])
                       && FieldOf(Run(st, lines).pending, f) == Decided(f, lines[k])
    decreases |lines|
  {
    if |lines| == 0 {
      k := -1;
    } else {
      var init, last := lines[..|lines| - 1], lines[|lines| - 1];
      var k0 := RunCarries(st, init, f);
      RunLastPending(st, lines, f);
      if Decides(f, Run(st, init), last) {
        k := |lines| - 1;
      } else {
        k := k0;
        if 0 <= k {
          PrefixAt(lines, k);
        }
        QuietSnoc(st, lines, init, f, k);
      }
    }
  }

  /** A line of a run before its last is a line of the run without its last. */
  lemma PrefixAt(lines: seq<string>, j: int)
    requires 0 <= j < |lines| - 1
    ensures lines[..j] == lines[..|lines| - 1][..j] && lines[j] == lines[..|lines| - 1][j]
  {
  }

  /** No line after index `k` decides field `f` when none did before the last line and the
      last line does not either. */
  lemma QuietSnoc(st: State, lines: seq<string>, init: seq<string>, f: Field, k: int)
    requires |lines| > 0 && init == lines[..|lines| - 1] && -1 <= k < |init|
    requires forall j :: k < j < |init| ==> !Decides(f, Run(st, init[..j]), init[j])
    requires !Decides(f, Run(st, init), lines[|lines| - 1])
    ensures forall j :: k < j < |lines| ==> !Decides(f, Run(st, lines[..j]), lines[j])
  {
    forall j | k < j < |lines| ensures !Decides(f, Run(st, lines[..j]), lines[j]) {
      if j < |lines| - 1 {
        PrefixAt(lines, j);
      }
    }
  }

  // ---------------------------------------------------------------------------
  // One entry per header line

  /** The number and the location of a day. */
  function HeaderOf(d: ItineraryDay): DayHeader {
    DayHeader(d.day, d.location)
  }

  /** The number and the location of each day, in order. */
  function Headers(days: seq<ItineraryDay>): (hs: seq<DayHeader>)
    ensures |hs| == |days|
    decreases |days|
  {
    if |days| == 0 then [] else Headers(days[..|days| - 1]) + [HeaderOf(days[|days| - 1])]
  }

  lemma HeadersSnoc(days: seq<ItineraryDay>, d: ItineraryDay)
    ensures Headers(days + [d]) == Headers(days) + [HeaderOf(d)]
  {
    assert (days + [d])[..|days|] == days;
  }

  /** The values present in a sequence of options, in order. */
  function Present<T>(os: seq<Option<T>>): seq<T>
    decreases |os|
  {
    if |os| == 0 then []
    else Present(os[..|os| - 1]) + (if os[|os| - 1].Some? then [os[|os| - 1].value] else [])
  }

  lemma {:induction false} PresentEmpty<T>(os: seq<Option<T>>)
    ensures Present(os) == [] <==> forall k :: 0 <= k < |os| ==> os[k].None?
    decreases |os|
  {
    if |os| > 0 {
      var init := os[..|os| - 1];
      PresentEmpty(init);
      assert forall k :: 0 <= k < |init| ==> init[k] == os[k];
    }
  }

  /** `f` applied to each element. */
  function Map<A, B>(f: A -> B, xs: seq<A>): (ys: seq<B>)
    ensures |ys| == |xs|
    ensures forall k :: 0 <= k < |xs| ==> ys[k] == f(xs[k])
  {
    seq(|xs|, k requires 0 <= k < |xs| => f(xs[k]))
  }

  lemma MapSnoc<A, B>(f: A -> B, xs: seq<A>)
    requires |xs| > 0
    ensures Map(f, xs) == Map(f, xs[..|xs| - 1]) + [f(xs[|xs| - 1])]
  {
  }

  /** What the header expression reports on each line. */
  function HeaderMatches(lines: seq<string>): seq<Option<DayHeader>>
  {
    Map(MatchDayHeader, lines)
  }

  /** What the header expression reports on each line that it matches, in the order of the
      lines. */
  function HeaderLines(lines: seq<string>): seq<DayHeader>
  {
    Present(HeaderMatches(lines))
  }

  /** The header a line holds, if it is a header line. */
  function HeaderIn(line: string): (hs: seq<DayHeader>)
    ensures |hs| <= 1
  {
    match MatchDayHeader(line)
    case None => []
    case Some(h) => [h]
  }

  lemma HeaderLinesSnoc(lines: seq<string>)
    requires |lines| > 0
    ensures HeaderLines(lines) == HeaderLines(lines[..|lines| - 1]) + HeaderIn(lines[|lines| - 1])
  {
    MapSnoc(MatchDayHeader, lines);
    assert HeaderMatches(lines)[..|lines| - 1] == HeaderMatches(lines[..|lines| - 1]);
  }

  /** One line adds the header it holds, if any, to the headers of the days so far. */
  lemma StepHeaders(st: State, line: string)
    ensures Headers(Finish(Step(st, line))) == Headers(Finish(st)) + HeaderIn(line)
  {
    match MatchDayHeader(line)
    case Some(h) =>
      var d := ItineraryDay(h.number, h.location, NoActivities);
      assert Finish(Step(st, line)) == Finish(st) + [d];
      HeadersSnoc(Finish(st), d);
    case None =>
      StepKeepsOtherSections(st, line);
      if st.current.Some? {
        HeadersSnoc(st.days, st.current.value);
        HeadersSnoc(st.days, Step(st, line).current.value);
      }
  }

  lemma {:induction false} RunHeaders(lines: seq<string>)
    ensures Headers(Finish(Run(Start, lines))) == HeaderLines(lines)
    decreases |lines|
  {
    if |lines| > 0 {
      RunHeaders(lines[..|lines| - 1]);
      StepHeaders(Run(Start, lines[..|lines| - 1]), lines[|lines| - 1]);
      HeaderLinesSnoc(lines);
    }
  }

  /** The result has one day per line that the header expression matches, in the order of
      those lines, each with the number and trimmed location of its header. */
  lemma ParseHeaders(markdown: string)
    ensures Headers(Parse(markdown)) == HeaderLines(Split(markdown))
  {
    RunHeaders(Split(markdown));
  }

  /** The result is empty exactly when no line is a day header. */
  lemma NoHeaderNoDays(markdown: string)
    ensures Parse(markdown) == [] <==> forall k :: 0 <= k < |Split(markdown)| ==> MatchDayHeader(Split(markdown)[k]).None?
  {
    var lines := Split(markdown);
    ParseHeaders(markdown);
    PresentEmpty(HeaderMatches(lines));
  }

  // ---------------------------------------------------------------------------
  // Lines before the first header, and documents without markers

  /** Lines before the first day header push no day, open none and leave the accumulator
      empty: whatever they hold is lost, except the section a marker among them sets. */
  lemma {:induction false} Preamble(lines: seq<string>)
    requires forall k :: 0 <= k < |lines| ==> MatchDayHeader(lines[k]).None?
    ensures Run(Start, lines).days == [] && Run(Start, lines).current.None? && Run(Start, lines).pending == Blank
    decreases |lines|
  {
    if |lines| > 0 {
      var init, last := lines[..|lines| - 1], lines[|lines| - 1];
      forall k | 0 <= k < |init| ensures MatchDayHeader(init[k]).None? {
        assert init[k] == lines[k];
      }
      Preamble(init);
      var st := Run(Start, init);
      assert MatchDayHeader(last).None?;
      if SectionMarker(last).None? {
        StepOutside(st, last);
      }
    }
  }

  /** Lines that no marker has yet put into a section add no activity: in a document
      without markers every day has three empty sections. */
  lemma {:induction false} NoMarkerRun(lines: seq<string>)
    requires forall k :: 0 <= k < |lines| ==> SectionMarker(lines[k]).None?
    ensures Run(Start, lines).section.None?
    ensures forall d :: d in Finish(Run(Start, lines)) ==> d.sections == NoActivities
    decreases |lines|
  {
    if |lines| > 0 {
      var init, last := lines[..|lines| - 1], lines[|lines| - 1];
      forall k | 0 <= k < |init| ensures SectionMarker(init[k]).None? {
        assert init[k] == lines[k];
      }
      NoMarkerRun(init);
      var st := Run(Start, init);
      assert SectionMarker(last).None?;
      if MatchDayHeader(last).None? {
        StepOutside(st, last);
      } else {
        assert Finish(Step(st, last)) == Finish(st) + [Step(st, last).current.value];
      }
    }
  }

  lemma NoMarkerNoActivities(markdown: string)
    requires forall k :: 0 <= k < |Split(markdown)| ==> SectionMarker(Split(markdown)[k]).None?
    ensures forall d :: d in Parse(markdown) ==> d.sections == NoActivities
  {
    NoMarkerRun(Split(markdown));
  }

  // ---------------------------------------------------------------------------
  // Days once pushed are final

  lemma StepDaysGrow(st: State, line: string)
    ensures st.days <= Step(st, line).days
  {
    if MatchDayHeader(line).None? {
      StepKeepsOtherSections(st, line);
    }
  }

  /** A day pushed onto the result is never changed or removed by the lines after it. */
  lemma {:induction false} DaysFinal(lines: seq<string>, more: seq<string>)
    ensures Run(Start, lines).days <= Run(Start, lines + more).days
    decreases |more|
  {
    if |more| == 0 {
      assert lines + more == lines;
    } else {
      var init := more[..|more| - 1];
      DaysFinal(lines, init);
      var all := lines + more;
      assert all[..|all| - 1] == lines + init;
      RunDaysGrow(Start, all);
    }
  }

  /** The last line of a run keeps the days pushed before it. */
  lemma RunDaysGrow(st: State, lines: seq<string>)
    requires |lines| > 0
    ensures Run(st, lines[..|lines| - 1]).days <= Run(st, lines).days
  {
    StepDaysGrow(Run(st, lines[..|lines| - 1]), lines[|lines| - 1]);
  }

  // ---------------------------------------------------------------------------
  // Every pushed activity has a non-empty trimmed title

  /** An optional text that is absent or trimmed. */
  predicate TrimmedOrNone(o: Option<string>) {
    o.None? || Trim(o.value) == o.value
  }

  /** What every activity in the result satisfies: a title that is not empty and is
      trimmed, and a trimmed location and tip when present. */
  predicate WellFormedActivity(a: Activity) {
    a.title != [] && Trim(a.title) == a.title && TrimmedOrNone(a.location) && TrimmedOrNone(a.tip)
  }

  predicate WellFormedActivities(acts: seq<Activity>) {
    forall i :: 0 <= i < |acts| ==> WellFormedActivity(acts[i])
  }

  predicate WellFormedDay(d: ItineraryDay) {
    forall s :: WellFormedActivities(d.sections.Get(s))
  }

  predicate WellFormedState(st: State) {
    (forall i :: 0 <= i < |st.days| ==> WellFormedDay(st.days[i]))
    && (st.current.Some? ==> WellFormedDay(st.current.value))
    && TrimmedOrNone(st.pending.location)
  }

  /** Appending a well-formed activity to a section keeps the day well-formed. */
  lemma PushWellFormed(d: ItineraryDay, s: Section, a: Activity)
    requires WellFormedDay(d) && WellFormedActivity(a)
    ensures WellFormedDay(d.(sections := d.sections.Put(s, d.sections.Get(s) + [a])))
  {
    var e := d.(sections := d.sections.Put(s, d.sections.Get(s) + [a]));
    forall t ensures WellFormedActivities(e.sections.Get(t)) {
      if t == s {
        var acts := d.sections.Get(s);
        assert forall i :: 0 <= i < |acts| ==> e.sections.Get(s)[i] == acts[i];
      }
    }
  }

  lemma BulletWellFormed(d: ItineraryDay, s: Section, p: Pending, content: string)
    requires WellFormedDay(d) && TrimmedOrNone(p.location)
    ensures WellFormedDay(Bullet(d, s, p, content).0) && TrimmedOrNone(Bullet(d, s, p, content).1.location)
  {
    var q := Absorb(p, content);
    assert TrimmedOrNone(q.location);
    var title := Title(content);
    if title != [] {
      var a := Activity(title, q.location, q.time, q.cost, None);
      PushWellFormed(d, s, a);
    }
  }

  lemma TipWellFormed(d: ItineraryDay, s: Section, tip: string)
    requires WellFormedDay(d) && Trim(tip) == tip
    ensures WellFormedDay(AttachTip(d, s, tip))
  {
    var e := AttachTip(d, s, tip);
    forall t ensures WellFormedActivities(e.sections.Get(t)) {
      var acts := d.sections.Get(s);
      if t == s && |acts| > 0 {
        TipSetsLast(d, s, tip);
        var n := |acts|;
        assert forall i :: 0 <= i < n - 1 ==> e.sections.Get(s)[i] == acts[..n - 1][i];
      }
    }
  }

  lemma InSectionWellFormed(d: ItineraryDay, s: Section, st: State, line: string)
    requires WellFormedDay(d) && TrimmedOrNone(st.pending.location)
    ensures WellFormedDay(InSection(d, s, st, line).current.value)
    ensures TrimmedOrNone(InSection(d, s, st, line).pending.location)
  {
    if MatchActivity(line).Some? {
      BulletWellFormed(d, s, st.pending, MatchActivity(line).value);
    }
    var r := BulletLine(d, s, st.pending, line);
    if MatchTip(line).Some? {
      TipWellFormed(r.0, s, MatchTip(line).value);
    }
  }

  /** Closing the current day and opening an empty one keeps the state well-formed. */
  lemma OpenDayWellFormed(st: State, h: DayHeader)
    requires WellFormedState(st)
    ensures WellFormedState(State(st.days + Emitted(st.current), Some(ItineraryDay(h.number, h.location, NoActivities)), st.section, st.pending))
  {
    var days := st.days + Emitted(st.current);
    forall i | 0 <= i < |days| ensures WellFormedDay(days[i]) {
      if i < |st.days| {
        assert days[i] == st.days[i];
      }
    }
  }

  lemma HeaderWellFormed(st: State, line: string)
    requires WellFormedState(st) && MatchDayHeader(line).Some?
    ensures WellFormedState(Step(st, line))
  {
    StepHeader(st, line);
    OpenDayWellFormed(st, MatchDayHeader(line).value);
  }

  lemma StepWellFormed(st: State, line: string)
    requires WellFormedState(st)
    ensures WellFormedState(Step(st, line))
  {
    if MatchDayHeader(line).Some? {
      HeaderWellFormed(st, line);
    } else if SectionMarker(line).Some? {
      StepMarker(st, line);
    } else if st.current.Some? && st.section.Some? {
      StepInSection(st, line);
      InSectionWellFormed(st.current.value, st.section.value, st, line);
    } else {
      StepOutside(st, line);
    }
  }

  lemma {:induction false} RunWellFormed(lines: seq<string>)
    ensures WellFormedState(Run(Start, lines))
    decreases |lines|
  {
    if |lines| > 0 {
      RunWellFormed(lines[..|lines| - 1]);
      StepWellFormed(Run(Start, lines[..|lines| - 1]), lines[|lines| - 1]);
    }
  }

  /** Every activity in the result has a title that is not empty and is trimmed, and a
      trimmed location and tip when it has them. */
  lemma ParseWellFormed(markdown: string)
    ensures forall d :: d in Parse(markdown) ==> WellFormedDay(d)
  {
    var st := Run(Start, Split(markdown));
    RunWellFormed(Split(markdown));
    assert forall d :: d in Finish(st) ==> d in st.days || Some(d) == st.current;
  }
}
