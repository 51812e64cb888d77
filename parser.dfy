/** `parseItinerary` as the loop it is: one pass over the lines that updates
    `currentDay`, `currentSection` and the accumulator, pushing finished days and
    activities as it goes. */
module ItineraryParser {
  import opened Text
  import opened Common
  import opened Patterns
  import opened Itinerary
  import opened ItineraryProperties

  /** The itinerary days described by `markdown`, in the order of their headers. */
  method ParseItinerary(markdown: string) returns (days: seq<ItineraryDay>)
    ensures days == Parse(markdown)
  {
    days := [];
    var lines := Split(markdown);
    var currentDay: Option<ItineraryDay> := None;
    var currentSection: Option<Section> := None;
    var currentActivity := Blank;

    for i := 0 to |lines|
      invariant State(days, currentDay, currentSection, currentActivity) == Run(Start, lines[..i])
    {
      var line := lines[i];
      assert lines[..i + 1][..i] == lines[..i];
      ghost var before := State(days, currentDay, currentSection, currentActivity);

      var dayMatch := MatchDayHeader(line);
      if dayMatch.Some? {
        StepHeader(before, line);
        if currentDay.Some? {
          days := days + [currentDay.value];
        }
        currentDay := Some(ItineraryDay(dayMatch.value.number, dayMatch.value.location, NoActivities));
        continue;
      }

      if Contains(line, MorningMarker) {
        StepMarker(before, line);
        currentSection := Some(Morning);
        continue;
      } else if Contains(line, AfternoonMarker) {
        StepMarker(before, line);
        currentSection := Some(Afternoon);
        continue;
      } else if Contains(line, EveningMarker) {
        StepMarker(before, line);
        currentSection := Some(Evening);
        continue;
      }

      if currentDay.None? || currentSection.None? {
        StepOutside(before, line);
        continue;
      }
      StepInSection(before, line);
      var day := currentDay.value;
      var section := currentSection.value;

      var activityMatch := MatchActivity(line);
      if activityMatch.Some? {
        day, currentActivity := AddActivity(day, section, currentActivity, activityMatch.value);
      }

      var tipMatch := MatchTip(line);
      if tipMatch.Some? {
        day := SetTip(day, section, tipMatch.value);
      }
      currentDay := Some(day);
    }
    assert lines[..|lines|] == lines;

    if currentDay.Some? {
      days := days + [currentDay.value];
    }
  }

  /** The bullet branch: the accumulator takes the location, time and cost found in
      `content`, and the activity is pushed onto the section when its title is not empty. */
  method AddActivity(day: ItineraryDay, section: Section, pending: Pending, content: string)
    returns (day': ItineraryDay, pending': Pending)
    ensures (day', pending') == Bullet(day, section, pending, content)
  {
    day', pending' := day, pending;
    var location := LocationOf(content);
    if location.Some? {
      pending' := pending'.(location := location);
    }
    var time := TokenOf(Time, content);
    if time.Some? {
      pending' := pending'.(time := time);
    }
    var cost := TokenOf(Cost, content);
    if cost.Some? {
      pending' := pending'.(cost := cost);
    }
    assert pending' == Absorb(pending, content);
    var title := Title(content);
    if title != [] {
      var activity := Activity(title, pending'.location, pending'.time, pending'.cost, None);
      day' := day'.(sections := day'.sections.Put(section, day'.sections.Get(section) + [activity]));
      pending' := Blank;
    }
  }

  /** The tip branch: the tip is set on the last activity of the section, if there is one. */
  method SetTip(day: ItineraryDay, section: Section, tip: string) returns (day': ItineraryDay)
    ensures day' == AttachTip(day, section, tip)
  {
    day' := day;
    var acts := day.sections.Get(section);
    if |acts| > 0 {
      var lastActivity := acts[|acts| - 1];
      day' := day.(sections := day.sections.Put(section, acts[|acts| - 1 := lastActivity.(tip := Some(tip))]));
    }
  }
}
