/** The itinerary records and the single forward pass over the lines of the markdown,
    stated as a fold: `Step` is what one iteration of the loop does to the parser's state,
    `Run` folds it over the lines and `Parse` is the whole function. */
module Itinerary {
  import opened Text
  import opened Common
  import opened Patterns

  /** One activity of a section. `description` is never filled in by the parser and is
      not modelled. */
  datatype Activity = Activity(
    title: string,
    location: Option<string>,
    time: Option<string>,
    cost: Option<string>,
    tip: Option<string>)

  /** The three activity lists of a day. */
  datatype Sections = Sections(morning: seq<Activity>, afternoon: seq<Activity>, evening: seq<Activity>)
  {
    /** `sections[s]`. */
    function Get(s: Section): seq<Activity> {
      match s
      case Morning => morning
      case Afternoon => afternoon
      case Evening => evening
    }

    /** The sections with the list of `s` replaced by `acts` and the other two kept. */
    function Put(s: Section, acts: seq<Activity>): (r: Sections)
      ensures r.Get(s) == acts
      ensures forall t :: t != s ==> r.Get(t) == Get(t)
    {
      match s
      case Morning => this.(morning := acts)
      case Afternoon => this.(afternoon := acts)
      case Evening => this.(evening := acts)
    }
  }

  /** The sections of a day that has just been opened. */
  const NoActivities: Sections := Sections([], [], [])

  datatype ItineraryDay = ItineraryDay(day: nat, location: string, sections: Sections)

  /** What `currentActivity` holds between bullets: the location, time and cost found so
      far. Its `title` is assigned on every bullet before it is read, so it carries nothing
      from one line to the next. */
  datatype Pending = Pending(location: Option<string>, time: Option<string>, cost: Option<string>)

  /** `{}`: the accumulator after a push, and at the start. */
  const Blank: Pending := Pending(None, None, None)

  /** The locals of the loop: `days`, `currentDay`, `currentSection` and `currentActivity`. */
  datatype State = State(
    days: seq<ItineraryDay>,
    current: Option<ItineraryDay>,
    section: Option<Section>,
    pending: Pending)

  /** The state before the first line. */
  const Start: State := State([], None, None, Blank)

  /** The day `if (currentDay) days.push(currentDay)` appends, if any. */
  function Emitted(current: Option<ItineraryDay>): (ds: seq<ItineraryDay>)
    ensures |ds| <= 1
    ensures current.None? ==> ds == []
    ensures current.Some? ==> ds == [current.value]
  {
    match current
    case None => []
    case Some(d) => [d]
  }

  /** The metadata a bullet sets on the accumulator: a field found in the content replaces
      the old one, and a field not found keeps it. */
  function Absorb(p: Pending, content: string): (q: Pending)
    ensures q.location == (if LocationOf(content).Some? then LocationOf(content) else p.location)
    ensures q.time == (if TokenOf(Time, content).Some? then TokenOf(Time, content) else p.time)
    ensures q.cost == (if TokenOf(Cost, content).Some? then TokenOf(Cost, content) else p.cost)
  {
    Pending(
      LocationOf(content).OrElse(p.location),
      TokenOf(Time, content).OrElse(p.time),
      TokenOf(Cost, content).OrElse(p.cost))
  }

  /** A bullet with content `content` in section `s` of day `d`: the activity is appended
      when its title is not empty, and the accumulator is then reset; otherwise the day is
      unchanged and the accumulator keeps what was absorbed. */
  function Bullet(d: ItineraryDay, s: Section, p: Pending, content: string): (r: (ItineraryDay, Pending))
    ensures r.0.day == d.day && r.0.location == d.location
    ensures forall t :: t != s ==> r.0.sections.Get(t) == d.sections.Get(t)
  {
    var q := Absorb(p, content);
    var title := Title(content);
    if title != [] then
      var act := Activity(title, q.location, q.time, q.cost, None);
      (d.(sections := d.sections.Put(s, d.sections.Get(s) + [act])), Blank)
    else (d, q)
  }

  /** A tip in section `s` of day `d`: it is set on the last activity of the section,
      replacing any earlier tip, and dropped when the section is empty. */
  function AttachTip(d: ItineraryDay, s: Section, tip: string): (e: ItineraryDay)
    ensures e.day == d.day && e.location == d.location
    ensures forall t :: |e.sections.Get(t)| == |d.sections.Get(t)|
    ensures forall t :: t != s ==> e.sections.Get(t) == d.sections.Get(t)
  {
    var acts := d.sections.Get(s);
    if |acts| == 0 then d
    else
      var last := acts[|acts| - 1];
      d.(sections := d.sections.Put(s, acts[|acts| - 1 := last.(tip := Some(tip))]))
  }

  /** One iteration of the loop, on one line. A header closes the current day and opens a
      new one without touching the section; a marker sets the section; outside a day or a
      section nothing else happens; otherwise a bullet is read and then a tip. */
  function Step(st: State, line: string): State
  {
    match MatchDayHeader(line)
    case Some(h) =>
      st.(days := st.days + Emitted(st.current), current := Some(ItineraryDay(h.number, h.location, NoActivities)))
    case None =>
      match SectionMarker(line)
      case Some(sec) => st.(section := Some(sec))
      case None =>
        if st.current.None? || st.section.None? then st
        else InSection(st.current.value, st.section.value, st, line)
  }

  /** The bullet half of an iteration inside a section: a bullet line goes through
      `Bullet`, and any other line leaves the day and the accumulator alone. */
  function BulletLine(d: ItineraryDay, s: Section, p: Pending, line: string): (r: (ItineraryDay, Pending))
    ensures r.0.day == d.day && r.0.location == d.location
    ensures forall t :: t != s ==> r.0.sections.Get(t) == d.sections.Get(t)
  {
    match MatchActivity(line)
    case Some(content) => Bullet(d, s, p, content)
    case None => (d, p)
  }

  /** The tip half of an iteration inside a section. */
  function TipLine(d: ItineraryDay, s: Section, line: string): (e: ItineraryDay)
    ensures e.day == d.day && e.location == d.location
    ensures forall t :: |e.sections.Get(t)| == |d.sections.Get(t)|
    ensures forall t :: t != s ==> e.sections.Get(t) == d.sections.Get(t)
  {
    match MatchTip(line)
    case Some(tip) => AttachTip(d, s, tip)
    case None => d
  }

  /** The rest of an iteration once a day and a section are open: the bullet, then the tip. */
  function InSection(d: ItineraryDay, s: Section, st: State, line: string): State
  {
    var r := BulletLine(d, s, st.pending, line);
    st.(current := Some(TipLine(r.0, s, line)), pending := r.1)
  }

  /** The state after the loop has gone through `lines`. */
  function Run(st: State, lines: seq<string>): State
    decreases |lines|
  {
    if |lines| == 0 then st
    else Step(Run(st, lines[..|lines| - 1]), lines[|lines| - 1])
  }

  /** After the loop: the day still open is appended. */
  function Finish(st: State): seq<ItineraryDay>
  {
    st.days + Emitted(st.current)
  }

  /** `parseItinerary(markdown)`. */
  function Parse(markdown: string): seq<ItineraryDay>
  {
    Finish(Run(Start, Split(markdown)))
  }
}
