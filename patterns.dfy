/** The regular expressions of the itinerary parser, each written out as a matcher on
    `seq<char>` beside a declarative description of the strings it accepts, with lemmas
    tying the two together. The emoji markers are fixed code-point sequences. */
module Patterns {
  import opened Text
  import opened Common

  /** The section markers, found by substring containment. */
  const MorningMarker: string := "### \U{1F5D3} Morning"
  const AfternoonMarker: string := "### \U{2600}\U{FE0F} Afternoon"
  const EveningMarker: string := "### \U{1F319} Evening"

  /** The light-bulb emoji that opens a tip line. */
  const TipMarker: string := "\U{1F4A1}"

  // ---------------------------------------------------------------------------
  // `\s*(.+)$` anchored at the start of a string

  /** `\s*(.+)$`, anchored at the start of `r`, can leave `r[k..]` to the group:
      the first `k` code points are whitespace, and the rest is non-empty and holds no
      line terminator (`.` refuses those, and `$` is the end of the input). */
  ghost predicate CaptureFrom(r: string, k: int) {
    0 <= k < |r| && AllSpace(r[..k]) && NoTerminator(r[k..])
  }

  /** Group 1 of `^\s*(.+)$` on `r`, by the engine's own backtracking: the greedy `\s*` first
      tries to take one more whitespace code point and only when the rest then fails does it
      leave that code point to `.+`, which must run to the end of the input. */
  function RestCapture(r: string): Option<string>
    decreases |r|
  {
    if |r| > 0 && IsSpace(r[0]) && RestCapture(r[1..]).Some? then RestCapture(r[1..])
    else if |r| > 0 && NoTerminator(r) then Some(r)
    else None
  }

  /** Dropping one leading whitespace code point shifts every way of matching by one. */
  lemma CaptureFromShift(r: string, k: int)
    requires |r| > 0 && 0 <= k
    ensures CaptureFrom(r, k + 1) <==> IsSpace(r[0]) && CaptureFrom(r[1..], k)
  {
    if k + 1 <= |r| {
      assert r[..k + 1][1..] == r[1..][..k];
      assert r[k + 1..] == r[1..][k..];
    }
  }

  /** The backtracking matcher finds a match exactly when one exists, and it keeps the
      longest leading whitespace run that still leaves a match: the group is the shortest
      possible suffix. */
  lemma {:induction false} RestCaptureSpec(r: string)
    ensures RestCapture(r).Some? <==> exists k :: CaptureFrom(r, k)
    ensures RestCapture(r).Some? ==> var t := RestCapture(r).value;
              |t| <= |r| && t == r[|r| - |t|..] && CaptureFrom(r, |r| - |t|)
              && forall k :: |r| - |t| < k ==> !CaptureFrom(r, k)
    decreases |r|
  {
    if |r| == 0 {
      return;
    }
    RestCaptureSpec(r[1..]);
    forall k | 0 <= k ensures CaptureFrom(r, k + 1) <==> IsSpace(r[0]) && CaptureFrom(r[1..], k) {
      CaptureFromShift(r, k);
    }
    if IsSpace(r[0]) && RestCapture(r[1..]).Some? {
      var t := RestCapture(r[1..]).value;
      assert r[|r| - |t|..] == r[1..][|r| - 1 - |t|..];
      assert CaptureFrom(r, |r| - |t|);
      forall k | |r| - |t| < k ensures !CaptureFrom(r, k) {
        assert !CaptureFrom(r[1..], k - 1);
      }
    } else {
      forall k | 0 < k ensures !CaptureFrom(r, k) {
        if IsSpace(r[0]) {
          assert !CaptureFrom(r[1..], k - 1);
        }
      }
      if NoTerminator(r) {
        assert r[..0] == [];
        assert CaptureFrom(r, 0);
      } else {
        assert !CaptureFrom(r, 0);
      }
    }
  }

  /** Once trimmed, the group of `\s*(.+)$` is the whole string trimmed. */
  lemma RestCaptureTrim(r: string)
    requires RestCapture(r).Some?
    ensures Trim(RestCapture(r).value) == Trim(r)
  {
    RestCaptureSpec(r);
    var t := RestCapture(r).value;
    var k := |r| - |t|;
    assert r == r[..k] + t;
    TrimSpacePrefix(r[..k], t);
  }

  /** A line terminator at the end of `r` leaves `\s*(.+)$` nothing to match: `.` refuses it,
      and `\s*` cannot take it without leaving `.+` empty. */
  lemma RestCaptureRefusesTerminator(r: string)
    requires |r| > 0 && IsTerminator(r[|r| - 1])
    ensures RestCapture(r).None?
  {
    RestCaptureSpec(r);
    forall k | 0 <= k < |r| ensures !NoTerminator(r[k..]) {
      EveryIff(r[k..], IsDot);
      assert r[k..][|r| - 1 - k] == r[|r| - 1];
    }
  }

  // ---------------------------------------------------------------------------
  // Day header `^#\s*Day\s*(\d+):\s*(.+)$`

  /** What a day header yields: the number `parseInt` reads from group 1 and group 2 trimmed. */
  datatype DayHeader = DayHeader(number: nat, location: string)

  /** The two capture groups of the day-header expression: the digit run and the text after
      the colon. */
  datatype HeaderGroups = HeaderGroups(digits: string, text: string)

  /** `line` is accepted by `^#\s*Day\s*(\d+):\s*(.+)$`, split into its pieces: the two
      whitespace runs, the digit run of group 1 and the text after the colon. */
  ghost predicate DayHeaderParts(line: string, w1: string, w2: string, ds: string, rest: string) {
    line == "#" + (w1 + ("Day" + (w2 + (ds + (":" + rest)))))
    && AllSpace(w1) && AllSpace(w2) && |ds| > 0 && AllDigits(ds)
    && exists k :: CaptureFrom(rest, k)
  }

  /** `(.+)$` after the colon, with the digit run already read: both groups, or no match. */
  function AfterColon(ds: string, rest: string): (g: Option<HeaderGroups>)
    ensures g.Some? ==> g.value.digits == ds
  {
    match RestCapture(rest)
    case None => None
    case Some(t) => Some(HeaderGroups(ds, t))
  }

  /** `(\d+):` at the start of `s`, then the rest. */
  function DigitsColon(s: string): (g: Option<HeaderGroups>)
    ensures g.Some? ==> |g.value.digits| > 0 && AllDigits(g.value.digits)
  {
    var e := SpanDigits(s);
    if e == 0 || e == |s| || s[e] != ':' then None else AfterColon(s[..e], s[e + 1..])
  }

  /** `\s*` after `Day`, then the digits. */
  function AfterDay(s: string): (g: Option<HeaderGroups>)
    ensures g.Some? ==> |g.value.digits| > 0 && AllDigits(g.value.digits)
  {
    DigitsColon(s[SpanSpace(s)..])
  }

  /** The word `Day`, matched case-sensitively. */
  function DayWord(s: string): (g: Option<HeaderGroups>)
    ensures g.Some? ==> |g.value.digits| > 0 && AllDigits(g.value.digits)
  {
    if StartsWith(s, "Day") then AfterDay(s[3..]) else None
  }

  /** `\s*` after the `#`, then the word. */
  function AfterHash(s: string): (g: Option<HeaderGroups>)
    ensures g.Some? ==> |g.value.digits| > 0 && AllDigits(g.value.digits)
  {
    DayWord(s[SpanSpace(s)..])
  }

  /** `line.match(/^#\s*Day\s*(\d+):\s*(.+)$/)`, reduced to its two groups. */
  function DayHeaderGroups(line: string): (g: Option<HeaderGroups>)
    ensures g.Some? ==> |g.value.digits| > 0 && AllDigits(g.value.digits)
  {
    if |line| > 0 && line[0] == '#' then AfterHash(line[1..]) else None
  }

  /** What the parser keeps of a header line: `parseInt(dayMatch[1])` and `dayMatch[2].trim()`. */
  function MatchDayHeader(line: string): Option<DayHeader>
  {
    match DayHeaderGroups(line)
    case None => None
    case Some(g) => Some(DayHeader(DigitsValue(g.digits), Trim(g.text)))
  }

  lemma DigitsColonSound(s: string) returns (ds: string, rest: string)
    requires DigitsColon(s).Some?
    ensures s == ds + (":" + rest) && |ds| > 0 && AllDigits(ds) && DigitsColon(s) == AfterColon(ds, rest)
  {
    var e := SpanDigits(s);
    ds, rest := s[..e], s[e + 1..];
    assert s[e..] == ":" + rest;
    assert s == ds + s[e..];
  }

  lemma DigitsColonComplete(ds: string, rest: string)
    requires |ds| > 0 && AllDigits(ds)
    ensures DigitsColon(ds + (":" + rest)) == AfterColon(ds, rest)
  {
    var s := ds + (":" + rest);
    SpanDigitsAppend(ds, ":" + rest);
    assert s[|ds|..] == ":" + rest;
    assert s[..|ds|] == ds;
    assert s[|ds| + 1..] == rest;
  }

  /** A whitespace run `w` in front of `t`, which does not start with whitespace, is what
      `\s*` consumes. */
  lemma SpaceRun(w: string, t: string)
    requires AllSpace(w) && (t == [] || !IsSpace(t[0]))
    ensures (w + t)[SpanSpace(w + t)..] == t
  {
    SpanSpaceAppend(w, t);
    assert (w + t)[|w|..] == t;
  }

  /** The whitespace `\s*` consumes, and what follows it. */
  lemma SpaceRunSound(s: string) returns (w: string)
    ensures s == w + s[SpanSpace(s)..] && AllSpace(w)
  {
    w := s[..SpanSpace(s)];
  }

  lemma AfterDaySound(s: string) returns (w2: string, s4: string)
    ensures s == w2 + s4 && AllSpace(w2) && AfterDay(s) == DigitsColon(s4)
  {
    w2 := SpaceRunSound(s);
    s4 := s[SpanSpace(s)..];
  }

  lemma AfterDayComplete(w2: string, s4: string)
    requires AllSpace(w2) && (s4 == [] || !IsSpace(s4[0]))
    ensures AfterDay(w2 + s4) == DigitsColon(s4)
  {
    SpaceRun(w2, s4);
  }

  lemma AfterHashSound(s: string) returns (w1: string, s3: string)
    requires AfterHash(s).Some?
    ensures s == w1 + ("Day" + s3) && AllSpace(w1) && AfterHash(s) == AfterDay(s3)
  {
    w1 := SpaceRunSound(s);
    var s2 := s[SpanSpace(s)..];
    s3 := s2[3..];
    assert s2 == "Day" + s3;
  }

  lemma AfterHashComplete(w1: string, s3: string)
    requires AllSpace(w1)
    ensures AfterHash(w1 + ("Day" + s3)) == AfterDay(s3)
  {
    SpaceRun(w1, "Day" + s3);
    assert ("Day" + s3)[3..] == s3;
  }

  /** What follows `Day`: the whitespace, the digit run and the text after the colon. */
  lemma AfterDayChain(s: string) returns (w2: string, ds: string, rest: string)
    requires AfterDay(s).Some?
    ensures s == w2 + (ds + (":" + rest)) && AllSpace(w2) && |ds| > 0 && AllDigits(ds)
    ensures AfterDay(s) == AfterColon(ds, rest)
  {
    var s4;
    w2, s4 := AfterDaySound(s);
    ds, rest := DigitsColonSound(s4);
  }

  /** What follows `#`: the whitespace, the word and the rest of the header. */
  lemma AfterHashChain(s: string) returns (w1: string, w2: string, ds: string, rest: string)
    requires AfterHash(s).Some?
    ensures s == w1 + ("Day" + (w2 + (ds + (":" + rest))))
    ensures AllSpace(w1) && AllSpace(w2) && |ds| > 0 && AllDigits(ds)
    ensures AfterHash(s) == AfterColon(ds, rest)
  {
    var s3;
    w1, s3 := AfterHashSound(s);
    w2, ds, rest := AfterDayChain(s3);
  }

  /** A line that starts with `#` is `#` followed by the rest. */
  lemma HashSplit(line: string)
    requires |line| > 0 && line[0] == '#'
    ensures line == "#" + line[1..]
  {
  }

  /** The groups of a header line come from its pieces in the order the expression
      reads them. */
  lemma HeaderGroupsSound(line: string) returns (w1: string, w2: string, ds: string, rest: string)
    requires DayHeaderGroups(line).Some?
    ensures line == "#" + (w1 + ("Day" + (w2 + (ds + (":" + rest)))))
    ensures AllSpace(w1) && AllSpace(w2) && |ds| > 0 && AllDigits(ds)
    ensures DayHeaderGroups(line) == AfterColon(ds, rest)
  {
    var s := line[1..];
    HashSplit(line);
    w1, w2, ds, rest := AfterHashChain(s);
  }

  /** The pieces of a header line lead the matcher to its groups. */
  lemma HeaderGroupsComplete(line: string, w1: string, w2: string, ds: string, rest: string)
    requires line == "#" + (w1 + ("Day" + (w2 + (ds + (":" + rest)))))
    requires AllSpace(w1) && AllSpace(w2) && |ds| > 0 && AllDigits(ds)
    ensures DayHeaderGroups(line) == AfterColon(ds, rest)
  {
    var s4 := ds + (":" + rest);
    DigitsColonComplete(ds, rest);
    EveryIff(ds, IsDigit);
    AfterDayComplete(w2, s4);
    AfterHashComplete(w1, w2 + s4);
    assert line[1..] == w1 + ("Day" + (w2 + s4));
  }

  /** Every header the matcher reports is a line the regular expression accepts, and what it
      reports is the number of the digit run and the trimmed text after the colon. */
  lemma DayHeaderSound(line: string)
    requires MatchDayHeader(line).Some?
    ensures exists w1, w2, ds, rest :: DayHeaderParts(line, w1, w2, ds, rest)
              && MatchDayHeader(line) == Some(DayHeader(DigitsValue(ds), Trim(rest)))
  {
    var w1, w2, ds, rest := HeaderGroupsSound(line);
    RestCaptureSpec(rest);
    RestCaptureTrim(rest);
    assert DayHeaderParts(line, w1, w2, ds, rest);
  }

  /** Every line the regular expression accepts is reported, with the number of its digit
      run and its trimmed text after the colon. */
  lemma DayHeaderComplete(line: string, w1: string, w2: string, ds: string, rest: string)
    requires DayHeaderParts(line, w1, w2, ds, rest)
    ensures MatchDayHeader(line) == Some(DayHeader(DigitsValue(ds), Trim(rest)))
  {
    RestCaptureSpec(rest);
    HeaderGroupsComplete(line, w1, w2, ds, rest);
    RestCaptureTrim(rest);
  }

  /** A line that ends in a line terminator (the carriage return of a CRLF file) is never a
      day header: `.` does not match the terminator. */
  lemma TerminatorEndsNoHeader(line: string)
    requires |line| > 0 && IsTerminator(line[|line| - 1])
    ensures MatchDayHeader(line).None?
  {
    if MatchDayHeader(line).Some? {
      DayHeaderSound(line);
      var w1, w2, ds, rest :| DayHeaderParts(line, w1, w2, ds, rest);
      RestCaptureSpec(rest);
      assert rest[|rest| - 1] == line[|line| - 1];
      RestCaptureRefusesTerminator(rest);
    }
  }

  // ---------------------------------------------------------------------------
  // Section markers, bullets and tips

  /** The section a marker line switches to, trying morning, afternoon and evening in turn. */
  function SectionMarker(line: string): (sec: Option<Section>)
    ensures sec == Some(Morning) <==> Contains(line, MorningMarker)
    ensures sec == Some(Afternoon) <==> !Contains(line, MorningMarker) && Contains(line, AfternoonMarker)
    ensures sec == Some(Evening) <==> !Contains(line, MorningMarker) && !Contains(line, AfternoonMarker) && Contains(line, EveningMarker)
  {
    if Contains(line, MorningMarker) then Some(Morning)
    else if Contains(line, AfternoonMarker) then Some(Afternoon)
    else if Contains(line, EveningMarker) then Some(Evening)
    else None
  }

  /** The section a marker line switches to is that of the first marker, in the order
      morning, afternoon, evening, that occurs somewhere in the line, and there is none
      exactly when no marker occurs. */
  lemma SectionMarkerOccurs(line: string)
    ensures SectionMarker(line) == Some(Morning) <==> exists i :: OccursAt(line, MorningMarker, i)
    ensures SectionMarker(line) == Some(Afternoon) <==>
              (forall i :: !OccursAt(line, MorningMarker, i)) && exists i :: OccursAt(line, AfternoonMarker, i)
    ensures SectionMarker(line) == Some(Evening) <==>
              (forall i :: !OccursAt(line, MorningMarker, i)) && (forall i :: !OccursAt(line, AfternoonMarker, i))
              && exists i :: OccursAt(line, EveningMarker, i)
    ensures SectionMarker(line).None? <==>
              forall i :: !OccursAt(line, MorningMarker, i) && !OccursAt(line, AfternoonMarker, i)
                          && !OccursAt(line, EveningMarker, i)
  {
    ContainsSpec(line, MorningMarker);
    ContainsSpec(line, AfternoonMarker);
    ContainsSpec(line, EveningMarker);
  }

  /** Group 1 of `^-\s*(.+)$`: the content of a bullet line. It is the line after the dash
      and after the longest whitespace run that still leaves it non-empty, and it holds no
      line terminator. */
  function MatchActivity(line: string): (c: Option<string>)
    ensures c.Some? <==> |line| > 0 && line[0] == '-' && exists k :: CaptureFrom(line[1..], k)
    ensures c.Some? ==> 0 < |c.value| < |line| && c.value == line[|line| - |c.value|..]
                        && CaptureFrom(line[1..], |line| - 1 - |c.value|)
  {
    if |line| > 0 && line[0] == '-' then
      var r := line[1..];
      RestCaptureSpec(r);
      var c := RestCapture(r);
      assert c.Some? ==> r[|r| - |c.value|..] == line[|line| - |c.value|..];
      c
    else None
  }

  /** Group 1 of `^💡\s*(.+)$`, trimmed: the text of a tip line. */
  function MatchTip(line: string): (tip: Option<string>)
    ensures tip.Some? <==> StartsWith(line, TipMarker) && exists k :: CaptureFrom(line[|TipMarker|..], k)
    ensures tip.Some? ==> tip.value == Trim(line[|TipMarker|..])
    ensures tip.Some? ==> Trim(tip.value) == tip.value
  {
    if StartsWith(line, TipMarker) then
      var r := line[|TipMarker|..];
      RestCaptureSpec(r);
      match RestCapture(r)
      case None => None
      case Some(t) =>
        RestCaptureTrim(r);
        Some(Trimmed(t))
    else None
  }

  /** No line is both a bullet and a tip, so at most one of the two acts on a line. */
  lemma BulletIsNotTip(line: string)
    ensures !(MatchActivity(line).Some? && MatchTip(line).Some?)
  {
    if MatchActivity(line).Some? && |TipMarker| <= |line| {
      assert line[..|TipMarker|][0] == line[0];
    }
  }

  // ---------------------------------------------------------------------------
  // Location `\+\s*([^+]+)$`

  /** `/\+\s*([^+]+)$/` can start its match at index `i` of `c`: a `+` with at least one
      code point after it and no other `+` after it. */
  predicate LocationAt(c: string, i: int) {
    0 <= i < |c| - 1 && c[i] == '+' && forall j :: i < j < |c| ==> c[j] != '+'
  }

  /** The index of the last `+` among the first `n` code points of `c`. */
  function LastPlus(c: string, n: nat): (p: Option<nat>)
    requires n <= |c|
    ensures p.Some? ==> p.value < n && c[p.value] == '+' && forall j :: p.value < j < n ==> c[j] != '+'
    ensures p.None? ==> forall j :: 0 <= j < n ==> c[j] != '+'
  {
    if n == 0 then None
    else if c[n - 1] == '+' then Some(n - 1)
    else LastPlus(c, n - 1)
  }

  /** Where `/\+\s*([^+]+)$/` matches in `c`, if it does: the match runs to the end of `c`,
      and there is at most one place where it can start. */
  function FindLocation(c: string): (p: Option<nat>)
    ensures p.Some? ==> LocationAt(c, p.value)
    ensures forall i :: LocationAt(c, i) ==> p == Some(i)
  {
    match LastPlus(c, |c|)
    case None => None
    case Some(q) => if q < |c| - 1 then Some(q) else None
  }

  /** `location`: group 1 of the location expression, trimmed, which is the text after the
      last `+` trimmed. */
  function LocationOf(c: string): (loc: Option<string>)
    ensures loc.Some? <==> exists i :: LocationAt(c, i)
    ensures loc.Some? ==> Trim(loc.value) == loc.value
  {
    match FindLocation(c)
    case None => None
    case Some(p) => Some(Trimmed(c[p + 1..]))
  }

  /** Where the location expression matches, the location is the text after its `+`,
      trimmed. */
  lemma LocationOfAt(c: string, i: int)
    requires LocationAt(c, i)
    ensures LocationOf(c) == Some(Trim(c[i + 1..]))
  {
  }

  /** `c.replace(/\+\s*[^+]+$/, '')`: the content without its location suffix. */
  function StripLocation(c: string): (r: string)
    ensures forall i :: LocationAt(c, i) ==> r == c[..i]
    ensures (forall i :: !LocationAt(c, i)) ==> r == c
  {
    match FindLocation(c)
    case None => c
    case Some(p) => c[..p]
  }

  // ---------------------------------------------------------------------------
  // Time `\d{1,2}:\d{2}\s*(?:AM|PM|am|pm)` and cost `\$\d+(?:-\d+)?`

  /** The two metadata tokens the parser searches for anywhere in a bullet. */
  datatype Token = Time | Cost

  /** `AM`, `PM`, `am` or `pm`. */
  predicate IsMeridiem(s: string) {
    s == "AM" || s == "PM" || s == "am" || s == "pm"
  }

  /** `t` is a whole match of `\d{1,2}:\d{2}\s*(?:AM|PM|am|pm)`, in its pieces: the hour
      digits, the minute digits, the whitespace and the meridiem. */
  ghost predicate TimeParts(t: string, hs: string, ms: string, w: string, m: string) {
    t == hs + (":" + (ms + (w + m)))
    && 1 <= |hs| <= 2 && AllDigits(hs) && |ms| == 2 && AllDigits(ms) && AllSpace(w) && IsMeridiem(m)
  }

  /** `t` is a whole match of `\$\d+(?:-\d+)?`, in its pieces: the digits after the dollar
      sign and the range, empty or a dash and more digits. */
  ghost predicate CostParts(t: string, ds: string, range: string) {
    t == "$" + (ds + range) && |ds| >= 1 && AllDigits(ds)
    && (range == [] || (|range| >= 2 && range[0] == '-' && AllDigits(range[1..])))
  }

  // The matchers below read the content one code point at a time from an index, the way the
  // regular expression engine walks it, rather than on slices of it.

  /** What a greedy `\s*` consumes from index `k` of `c`. */
  function SpacesFrom(c: string, k: nat): (n: nat)
    requires k <= |c|
    ensures k + n <= |c|
    decreases |c| - k
  {
    if k < |c| && IsSpace(c[k]) then 1 + SpacesFrom(c, k + 1) else 0
  }

  /** What a greedy `\d*` consumes from index `k` of `c`. */
  function DigitsFrom(c: string, k: nat): (n: nat)
    requires k <= |c|
    ensures k + n <= |c|
    decreases |c| - k
  {
    if k < |c| && IsDigit(c[k]) then 1 + DigitsFrom(c, k + 1) else 0
  }

  lemma {:induction false} SpacesFromSound(c: string, k: nat)
    requires k <= |c|
    ensures AllSpace(c[k..k + SpacesFrom(c, k)])
    decreases |c| - k
  {
    var r := c[k..k + SpacesFrom(c, k)];
    if k < |c| && IsSpace(c[k]) {
      SpacesFromSound(c, k + 1);
      assert r[1..] == c[k + 1..k + 1 + SpacesFrom(c, k + 1)];
    } else {
      assert r == [];
    }
  }

  lemma {:induction false} DigitsFromSound(c: string, k: nat)
    requires k <= |c|
    ensures AllDigits(c[k..k + DigitsFrom(c, k)])
    decreases |c| - k
  {
    var r := c[k..k + DigitsFrom(c, k)];
    if k < |c| && IsDigit(c[k]) {
      DigitsFromSound(c, k + 1);
      assert r[1..] == c[k + 1..k + 1 + DigitsFrom(c, k + 1)];
    } else {
      assert r == [];
    }
  }

  /** A whitespace run that nothing extends is consumed whole. */
  lemma {:induction false} SpacesFromRun(pre: string, w: string, rest: string)
    requires AllSpace(w) && (rest == [] || !IsSpace(rest[0]))
    ensures SpacesFrom(pre + (w + rest), |pre|) == |w|
    decreases |w|
  {
    if w != [] {
      assert pre + (w + rest) == (pre + [w[0]]) + (w[1..] + rest);
      SpacesFromRun(pre + [w[0]], w[1..], rest);
    } else {
      assert (pre + (w + rest))[|pre|..] == rest;
    }
  }

  /** A digit run is consumed whole, and further when digits follow it. */
  lemma {:induction false} DigitsFromRun(pre: string, ds: string, rest: string)
    requires AllDigits(ds)
    ensures DigitsFrom(pre + (ds + rest), |pre|) >= |ds|
    ensures rest == [] || !IsDigit(rest[0]) ==> DigitsFrom(pre + (ds + rest), |pre|) == |ds|
    decreases |ds|
  {
    if ds != [] {
      assert pre + (ds + rest) == (pre + [ds[0]]) + (ds[1..] + rest);
      DigitsFromRun(pre + [ds[0]], ds[1..], rest);
    } else {
      assert (pre + (ds + rest))[|pre|..] == rest;
    }
  }

  /** `AM`, `PM`, `am` or `pm` at index `k` of `c`, one code point at a time. */
  predicate MeridiemAt(c: string, k: nat)
    requires k + 2 <= |c|
  {
    ((c[k] == 'A' || c[k] == 'P') && c[k + 1] == 'M') || ((c[k] == 'a' || c[k] == 'p') && c[k + 1] == 'm')
  }

  lemma MeridiemAtIff(c: string, k: nat)
    requires k + 2 <= |c|
    ensures MeridiemAt(c, k) <==> IsMeridiem(c[k..k + 2])
  {
    assert c[k..k + 2] == [c[k], c[k + 1]];
  }

  /** `\s*(?:AM|PM|am|pm)` from index `i` of `c`: the length it matches, 0 when none. */
  function MeridiemLenAt(c: string, i: nat): (n: nat)
    requires i <= |c|
    ensures i + n <= |c|
  {
    var k := i + SpacesFrom(c, i);
    if k + 2 <= |c| && MeridiemAt(c, k) then k + 2 - i else 0
  }

  /** `:\d{2}\s*(?:AM|PM|am|pm)` from index `i` of `c`: the length it matches, 0 when none. */
  function TimeTailLenAt(c: string, i: nat): (n: nat)
    requires i <= |c|
    ensures i + n <= |c|
  {
    if i + 3 <= |c| && c[i] == ':' && IsDigit(c[i + 1]) && IsDigit(c[i + 2]) && MeridiemLenAt(c, i + 3) > 0 then
      3 + MeridiemLenAt(c, i + 3)
    else 0
  }

  /** `\d{1,2}:\d{2}\s*(?:AM|PM|am|pm)` from index `i` of `c`: two hour digits are tried
      before one. */
  function TimeLenAt(c: string, i: nat): (n: nat)
    requires i <= |c|
    ensures i + n <= |c|
  {
    if i + 2 <= |c| && IsDigit(c[i]) && IsDigit(c[i + 1]) && TimeTailLenAt(c, i + 2) > 0 then
      2 + TimeTailLenAt(c, i + 2)
    else if i + 1 <= |c| && IsDigit(c[i]) && TimeTailLenAt(c, i + 1) > 0 then 1 + TimeTailLenAt(c, i + 1)
    else 0
  }

  /** `(?:-\d+)?` from index `i` of `c`: the range is taken when it is there. */
  function RangeLenAt(c: string, i: nat): (n: nat)
    requires i <= |c|
    ensures i + n <= |c|
  {
    if i + 2 <= |c| && c[i] == '-' && IsDigit(c[i + 1]) then 1 + DigitsFrom(c, i + 1) else 0
  }

  /** `\$\d+(?:-\d+)?` from index `i` of `c`, with a greedy `\d+`. */
  function CostLenAt(c: string, i: nat): (n: nat)
    requires i <= |c|
    ensures i + n <= |c|
  {
    if i + 2 <= |c| && c[i] == '$' && IsDigit(c[i + 1]) then
      var e := i + 1 + DigitsFrom(c, i + 1);
      e - i + RangeLenAt(c, e)
    else 0
  }

  lemma MeridiemSound(c: string, i: nat) returns (w: string, m: string)
    requires i <= |c| && MeridiemLenAt(c, i) > 0
    ensures c[i..i + MeridiemLenAt(c, i)] == w + m && AllSpace(w) && IsMeridiem(m)
  {
    var k := i + SpacesFrom(c, i);
    SpacesFromSound(c, i);
    MeridiemAtIff(c, k);
    w, m := c[i..k], c[k..k + 2];
    assert c[i..k + 2] == w + m;
  }

  lemma MeridiemComplete(pre: string, w: string, m: string, rest: string)
    requires AllSpace(w) && IsMeridiem(m)
    ensures MeridiemLenAt(pre + (w + (m + rest)), |pre|) == |w| + |m|
  {
    var c := pre + (w + (m + rest));
    var k := |pre| + |w|;
    assert (m + rest)[0] == m[0];
    SpacesFromRun(pre, w, m + rest);
    assert c[k..k + 2] == m;
    MeridiemAtIff(c, k);
  }

  lemma TimeTailSound(c: string, i: nat) returns (ms: string, w: string, m: string)
    requires i <= |c| && TimeTailLenAt(c, i) > 0
    ensures c[i..i + TimeTailLenAt(c, i)] == ":" + (ms + (w + m))
    ensures |ms| == 2 && AllDigits(ms) && AllSpace(w) && IsMeridiem(m)
  {
    w, m := MeridiemSound(c, i + 3);
    ms := c[i + 1..i + 3];
    assert ms == [c[i + 1]] + [c[i + 2]];
    EveryAppend([c[i + 1]], [c[i + 2]], IsDigit);
    var n := TimeTailLenAt(c, i);
    assert c[i..i + n] == [c[i]] + (ms + c[i + 3..i + n]);
  }

  lemma TimeTailComplete(pre: string, ms: string, w: string, m: string, rest: string)
    requires |ms| == 2 && AllDigits(ms) && AllSpace(w) && IsMeridiem(m)
    ensures TimeTailLenAt(pre + (":" + (ms + (w + (m + rest)))), |pre|) == 3 + |w| + |m|
  {
    var c := pre + (":" + (ms + (w + (m + rest))));
    var p := |pre|;
    EveryIff(ms, IsDigit);
    assert c[p] == ':' && c[p + 1] == ms[0] && c[p + 2] == ms[1];
    assert c == (pre + (":" + ms)) + (w + (m + rest));
    MeridiemComplete(pre + (":" + ms), w, m, rest);
  }

  /** One or two digits read from index `i` of `c`. */
  lemma HourDigits(c: string, i: nat, h: nat) returns (hs: string)
    requires 1 <= h <= 2 && i + h <= |c| && IsDigit(c[i]) && (h == 2 ==> IsDigit(c[i + 1]))
    ensures hs == c[i..i + h] && |hs| == h && AllDigits(hs)
  {
    hs := c[i..i + h];
    if h == 2 {
      assert hs == [c[i]] + [c[i + 1]];
      EveryAppend([c[i]], [c[i + 1]], IsDigit);
    } else {
      assert hs == [c[i]];
    }
  }

  /** Every match the time matcher reports is a whole time token. */
  lemma TimeSound(c: string, i: nat) returns (hs: string, ms: string, w: string, m: string)
    requires i <= |c| && TimeLenAt(c, i) > 0
    ensures TimeParts(c[i..i + TimeLenAt(c, i)], hs, ms, w, m)
  {
    var h := if i + 2 <= |c| && IsDigit(c[i]) && IsDigit(c[i + 1]) && TimeTailLenAt(c, i + 2) > 0 then 2 else 1;
    hs := HourDigits(c, i, h);
    ms, w, m := TimeTailSound(c, i + h);
    var n := TimeLenAt(c, i);
    assert n == h + TimeTailLenAt(c, i + h);
    assert c[i..i + n] == hs + c[i + h..i + n];
  }

  /** Wherever a time token starts, the time matcher reports exactly that token. */
  lemma TimeComplete(pre: string, t: string, rest: string, hs: string, ms: string, w: string, m: string)
    requires TimeParts(t, hs, ms, w, m)
    ensures TimeLenAt(pre + (t + rest), |pre|) == |t|
  {
    var c := pre + (t + rest);
    var p := |pre|;
    var u := ":" + (ms + (w + (m + rest)));
    assert c == (pre + hs) + u;
    TimeTailComplete(pre + hs, ms, w, m, rest);
    EveryIff(hs, IsDigit);
    assert c[p] == hs[0];
    if |hs| == 2 {
      assert c[p + 1] == hs[1];
    } else {
      assert c[p + 1] == ':';
    }
  }

  /** Every match the cost matcher reports is a whole cost token. */
  lemma CostSound(c: string, i: nat) returns (ds: string, range: string)
    requires i <= |c| && CostLenAt(c, i) > 0
    ensures CostParts(c[i..i + CostLenAt(c, i)], ds, range)
  {
    var e := i + 1 + DigitsFrom(c, i + 1);
    var n := CostLenAt(c, i);
    DigitsFromSound(c, i + 1);
    ds := c[i + 1..e];
    range := c[e..i + n];
    if RangeLenAt(c, e) > 0 {
      DigitsFromSound(c, e + 1);
      assert range[1..] == c[e + 1..i + n];
    } else {
      assert range == [];
    }
    assert c[i..i + n] == "$" + (ds + range);
  }

  /** A cost token with no range at index `|pre|`: its digits run on as far as the
      content's digits do, and nothing extends them when no digit and no `-` follows. */
  lemma CostNoRange(pre: string, t: string, rest: string, ds: string)
    requires CostParts(t, ds, [])
    ensures var c := pre + (t + rest);
            |pre| + 1 + |ds| <= |c| && c[|pre|] == '$' && IsDigit(c[|pre| + 1])
            && DigitsFrom(c, |pre| + 1) >= |ds|
            && ((rest == [] || (!IsDigit(rest[0]) && rest[0] != '-')) ==>
                  DigitsFrom(c, |pre| + 1) == |ds| && RangeLenAt(c, |pre| + 1 + |ds|) == 0)
  {
    var c := pre + (t + rest);
    EveryIff(ds, IsDigit);
    assert c == (pre + "$") + (ds + rest);
    assert c[|pre| + 1] == ds[0];
    DigitsFromRun(pre + "$", ds, rest);
    if rest != [] {
      assert c[|pre| + 1 + |ds|] == rest[0];
    }
  }

  /** A cost token with a range at index `|pre|`: its first digits end at the `-`, and the
      range's digits run on as far as the content's digits do. */
  lemma CostWithRange(pre: string, t: string, rest: string, ds: string, range: string)
    requires CostParts(t, ds, range) && range != []
    ensures var c := pre + (t + rest);
            var e := |pre| + 1 + |ds|;
            e <= |c| && c[|pre|] == '$' && IsDigit(c[|pre| + 1])
            && DigitsFrom(c, |pre| + 1) == |ds| && RangeLenAt(c, e) >= |range|
            && ((rest == [] || !IsDigit(rest[0])) ==> RangeLenAt(c, e) == |range|)
  {
    var c := pre + (t + rest);
    var e := |pre| + 1 + |ds|;
    EveryIff(ds, IsDigit);
    assert c == (pre + "$") + (ds + (range + rest));
    assert c[|pre| + 1] == ds[0];
    assert (range + rest)[0] == '-';
    DigitsFromRun(pre + "$", ds, range + rest);
    EveryIff(range[1..], IsDigit);
    assert c == (pre + "$" + ds + [range[0]]) + (range[1..] + rest);
    assert c[e] == '-' && c[e + 1] == range[1];
    DigitsFromRun(pre + "$" + ds + [range[0]], range[1..], rest);
  }

  /** Wherever a cost token starts, the cost matcher reports a match at least as long: the
      greedy match is the longest cost token there. */
  lemma CostComplete(pre: string, t: string, rest: string, ds: string, range: string)
    requires CostParts(t, ds, range)
    ensures CostLenAt(pre + (t + rest), |pre|) >= |t|
  {
    if range == [] {
      CostNoRange(pre, t, rest, ds);
    } else {
      CostWithRange(pre, t, rest, ds, range);
    }
  }

  /** A cost token followed by something that cannot extend it is matched exactly. */
  lemma CostExact(pre: string, t: string, rest: string, ds: string, range: string)
    requires CostParts(t, ds, range)
    requires rest == [] || (!IsDigit(rest[0]) && rest[0] != '-')
    ensures CostLenAt(pre + (t + rest), |pre|) == |t|
  {
    if range == [] {
      CostNoRange(pre, t, rest, ds);
    } else {
      CostWithRange(pre, t, rest, ds, range);
    }
  }

  /** The length of the match of the token's expression that starts at index `i` of `c`,
      0 when there is none. */
  function TokenLenAt(tok: Token, c: string, i: nat): (n: nat)
    requires i <= |c|
    ensures i + n <= |c|
  {
    match tok
    case Time => TimeLenAt(c, i)
    case Cost => CostLenAt(c, i)
  }

  /** The first index at or after `from` where the token's expression matches: the leftmost
      match, which `match` and `replace` act on. */
  function FindFirst(tok: Token, c: string, from: nat): (p: Option<nat>)
    requires from <= |c|
    ensures p.Some? ==> from <= p.value < |c| && TokenLenAt(tok, c, p.value) > 0
    ensures forall i :: from <= i <= |c| && (p.None? || i < p.value) ==> TokenLenAt(tok, c, i) == 0
    decreases |c| - from
  {
    if from == |c| then None
    else if TokenLenAt(tok, c, from) > 0 then Some(from)
    else FindFirst(tok, c, from + 1)
  }

  /** `time` is `timeMatch[1]` and `cost` is `costMatch[0]`: the leftmost match, verbatim. */
  function TokenOf(tok: Token, c: string): (m: Option<string>)
    ensures m.Some? ==> 0 < |m.value| <= |c|
    ensures m.None? ==> forall i :: 0 <= i <= |c| ==> TokenLenAt(tok, c, i) == 0
  {
    match FindFirst(tok, c, 0)
    case None => None
    case Some(p) => Some(c[p..p + TokenLenAt(tok, c, p)])
  }

  /** `s.replace(expression, '')`: `s` with the leftmost match of the token cut out, and
      unchanged when there is none. */
  function RemoveFirst(tok: Token, s: string): (r: string)
    ensures TokenOf(tok, s).None? ==> r == s
    ensures TokenOf(tok, s).Some? ==> |r| == |s| - |TokenOf(tok, s).value|
  {
    match FindFirst(tok, s, 0)
    case None => s
    case Some(p) => s[..p] + s[p + TokenLenAt(tok, s, p)..]
  }

  /** What `match` reports is the leftmost match, verbatim: it starts at the index `p`
      returned, no index before `p` matches, and it is not empty. */
  lemma LeftmostMatch(tok: Token, s: string) returns (p: nat)
    requires TokenOf(tok, s).Some?
    ensures var m := TokenOf(tok, s).value;
            p + |m| <= |s| && s[p..p + |m|] == m && TokenLenAt(tok, s, p) == |m| > 0
            && (forall i :: 0 <= i < p ==> TokenLenAt(tok, s, i) == 0)
  {
    p := FindFirst(tok, s, 0).value;
  }

  /** What `replace` cuts is the match `match` reports: the leftmost one, at the index `p`
      returned. The text before it and the text after it are kept in order. */
  lemma RemoveFirstCuts(tok: Token, s: string) returns (p: nat)
    requires TokenOf(tok, s).Some?
    ensures var m := TokenOf(tok, s).value;
            p + |m| <= |s| && s[p..p + |m|] == m && TokenLenAt(tok, s, p) == |m| > 0
            && (forall i :: 0 <= i < p ==> TokenLenAt(tok, s, i) == 0)
            && RemoveFirst(tok, s) == s[..p] + s[p + |m|..]
  {
    p := LeftmostMatch(tok, s);
    CutAt(tok, s, p, |TokenOf(tok, s).value|);
  }

  /** `replace` cuts the match out where the search stops. */
  lemma CutAt(tok: Token, s: string, p: nat, n: nat)
    requires p <= |s| && FindFirst(tok, s, 0) == Some(p) && TokenLenAt(tok, s, p) == n
    ensures p + n <= |s|
    ensures RemoveFirst(tok, s) == s[..p] + s[p + n..]
  {
  }

  /** The time a bullet reports is a whole time token of its content. */
  lemma TimeOfIsToken(c: string)
    requires TokenOf(Time, c).Some?
    ensures exists hs, ms, w, m :: TimeParts(TokenOf(Time, c).value, hs, ms, w, m)
  {
    var p := LeftmostMatch(Time, c);
    var hs, ms, w, m := TimeSound(c, p);
  }

  /** The cost a bullet reports is a whole cost token of its content. */
  lemma CostOfIsToken(c: string)
    requires TokenOf(Cost, c).Some?
    ensures exists ds, range :: CostParts(TokenOf(Cost, c).value, ds, range)
  {
    var p := LeftmostMatch(Cost, c);
    var ds, range := CostSound(c, p);
  }

  /** A time token anywhere in the content is found, at its own index or an earlier one. */
  lemma TimeFoundBy(pre: string, t: string, rest: string, hs: string, ms: string, w: string, m: string)
    requires TimeParts(t, hs, ms, w, m)
    ensures FindFirst(Time, pre + (t + rest), 0).Some? && FindFirst(Time, pre + (t + rest), 0).value <= |pre|
  {
    TimeComplete(pre, t, rest, hs, ms, w, m);
    assert TokenLenAt(Time, pre + (t + rest), |pre|) > 0;
  }

  /** A cost token anywhere in the content is found, at its own index or an earlier one. */
  lemma CostFoundBy(pre: string, t: string, rest: string, ds: string, range: string)
    requires CostParts(t, ds, range)
    ensures FindFirst(Cost, pre + (t + rest), 0).Some? && FindFirst(Cost, pre + (t + rest), 0).value <= |pre|
  {
    CostComplete(pre, t, rest, ds, range);
    assert TokenLenAt(Cost, pre + (t + rest), |pre|) > 0;
  }

  /** The title of a bullet: its content with the location suffix, then the first cost,
      then the first time removed, and then trimmed. */
  function Title(content: string): (title: string)
    ensures title == [] || (!IsSpace(title[0]) && !IsSpace(title[|title| - 1]))
    ensures Trim(title) == title
  {
    Trimmed(RemoveFirst(Time, RemoveFirst(Cost, StripLocation(content))))
  }

  /** A token can only match where its expression's fixed character occurs:
      a colon inside a time, a dollar sign at the start of a cost. */
  lemma TokenNeedsMark(tok: Token, c: string, i: nat)
    requires i <= |c| && TokenLenAt(tok, c, i) > 0
    ensures tok == Time ==> ':' in c[i..i + TokenLenAt(tok, c, i)]
    ensures tok == Cost ==> i < |c| && c[i] == '$'
  {
    if tok == Time {
      var h := if i + 2 <= |c| && IsDigit(c[i]) && IsDigit(c[i + 1]) && TimeTailLenAt(c, i + 2) > 0 then 2 else 1;
      assert c[i..i + TokenLenAt(tok, c, i)][h] == ':';
    }
  }

  /** Content with no `+`, no `$` and no `:` carries no metadata, and its title is the
      content trimmed. */
  lemma PlainTitle(content: string)
    requires '+' !in content && '$' !in content && ':' !in content
    ensures LocationOf(content).None? && TokenOf(Time, content).None? && TokenOf(Cost, content).None?
    ensures Title(content) == Trim(content)
  {
    forall tok: Token, i | 0 <= i <= |content| ensures TokenLenAt(tok, content, i) == 0 {
      if TokenLenAt(tok, content, i) > 0 {
        TokenNeedsMark(tok, content, i);
      }
    }
    assert StripLocation(content) == content;
    assert FindFirst(Cost, content, 0).None?;
    assert FindFirst(Time, content, 0).None?;
  }

  // ---------------------------------------------------------------------------
  // Activity lines of the form: free text, a time, a cost, then `+ location`

  /** A code point of free text that none of the metadata expressions can start on or
      end at: not a digit, not `$` and not `+`. */
  predicate IsPlain(c: char) {
    !IsDigit(c) && c != '$' && c != '+'
  }

  /** The three pieces of `pre + (t + rest)`, by their positions. */
  lemma Pieces(pre: string, t: string, rest: string)
    ensures var s := pre + (t + rest);
            s[..|pre|] == pre && s[|pre|..] == t + rest
            && s[|pre|..|pre| + |t|] == t && s[|pre| + |t|..] == rest
  {
  }

  /** The leftmost match, once it is known where it is, is what `match` reports and what
      `replace` cuts out. */
  lemma TokenAt(tok: Token, s: string, p: nat, n: nat)
    requires p <= |s| && TokenLenAt(tok, s, p) == n > 0
    requires forall i :: 0 <= i < p ==> TokenLenAt(tok, s, i) == 0
    ensures p + n <= |s|
    ensures TokenOf(tok, s) == Some(s[p..p + n])
    ensures RemoveFirst(tok, s) == s[..p] + s[p + n..]
  {
    FirstAt(tok, s, p);
    CutAt(tok, s, p, n);
  }

  /** A match of `t` right after `pre`, with no match starting inside `pre`, is what
      `match` reports and what `replace` cuts out. */
  lemma TokenFirst(tok: Token, pre: string, t: string, rest: string)
    requires TokenLenAt(tok, pre + (t + rest), |pre|) == |t| > 0
    requires forall i :: 0 <= i < |pre| ==> TokenLenAt(tok, pre + (t + rest), i) == 0
    ensures TokenOf(tok, pre + (t + rest)) == Some(t)
    ensures RemoveFirst(tok, pre + (t + rest)) == pre + rest
  {
    var s, p, n := pre + (t + rest), |pre|, |t|;
    TokenAt(tok, s, p, n);
    assert s[p..p + n] == t && s[..p] == pre && s[p + n..] == rest by {
      Pieces(pre, t, rest);
    }
  }

  /** The search stops at the first index where the expression matches. */
  lemma FirstAt(tok: Token, s: string, p: nat)
    requires p <= |s| && TokenLenAt(tok, s, p) > 0
    requires forall i :: 0 <= i < p ==> TokenLenAt(tok, s, i) == 0
    ensures FindFirst(tok, s, 0) == Some(p)
  {
  }

  /** No cost match starts at a code point other than `$`. */
  lemma NoCostBefore(pre: string, rest: string)
    requires '$' !in pre
    ensures forall i :: 0 <= i < |pre| ==> TokenLenAt(Cost, pre + rest, i) == 0
  {
    var s := pre + rest;
    forall i | 0 <= i < |pre| ensures TokenLenAt(Cost, s, i) == 0 {
      assert s[i] == pre[i];
    }
  }

  /** No time match starts at a code point that is not a digit. */
  lemma NoTimeBefore(pre: string, rest: string)
    requires forall i :: 0 <= i < |pre| ==> !IsDigit(pre[i])
    ensures forall i :: 0 <= i < |pre| ==> TokenLenAt(Time, pre + rest, i) == 0
  {
    var s := pre + rest;
    forall i | 0 <= i < |pre| ensures TokenLenAt(Time, s, i) == 0 {
      assert s[i] == pre[i];
    }
  }

  /** A time token holds no `$` and no `+`. */
  lemma TimeMarks(t: string, hs: string, ms: string, w: string, m: string)
    requires TimeParts(t, hs, ms, w, m)
    ensures '$' !in t && '+' !in t
  {
    EveryIff(hs, IsDigit);
    EveryIff(ms, IsDigit);
    EveryIff(w, IsSpace);
  }

  /** A cost token holds no `+`. */
  lemma CostMarks(t: string, ds: string, range: string)
    requires CostParts(t, ds, range)
    ensures '+' !in t
  {
    EveryIff(ds, IsDigit);
    if range != [] {
      EveryIff(range[1..], IsDigit);
      assert range == [range[0]] + range[1..];
    }
  }

  /** A text with a location suffix `+ loc`: the location is `loc` trimmed, and stripping it
      leaves the text before the `+`. */
  lemma LocationSuffix(s: string, loc: string)
    requires '+' !in s && |loc| > 0 && '+' !in loc
    ensures LocationOf(s + ("+" + loc)) == Some(Trim(loc))
    ensures StripLocation(s + ("+" + loc)) == s
  {
    var c := s + ("+" + loc);
    assert c[|s|] == '+' && c[|s| + 1..] == loc && c[..|s|] == s;
    forall j | |s| < j < |c| ensures c[j] != '+' {
      assert c[j] == loc[j - |s| - 1];
    }
    assert LocationAt(c, |s|);
    LocationOfAt(c, |s|);
  }

  /** A cost token with no `$` before it is the cost found and the one `replace` cuts. */
  lemma CostFirst(pre: string, t: string, rest: string, ds: string, range: string)
    requires '$' !in pre && CostParts(t, ds, range)
    requires rest == [] || (!IsDigit(rest[0]) && rest[0] != '-')
    ensures TokenOf(Cost, pre + (t + rest)) == Some(t)
    ensures RemoveFirst(Cost, pre + (t + rest)) == pre + rest
  {
    NoCostBefore(pre, t + rest);
    CostExact(pre, t, rest, ds, range);
    TokenFirst(Cost, pre, t, rest);
  }

  /** A time token with no digit before it is the time found and the one `replace` cuts. */
  lemma TimeFirst(pre: string, t: string, rest: string, hs: string, ms: string, w: string, m: string)
    requires (forall i :: 0 <= i < |pre| ==> !IsDigit(pre[i])) && TimeParts(t, hs, ms, w, m)
    ensures TokenOf(Time, pre + (t + rest)) == Some(t)
    ensures RemoveFirst(Time, pre + (t + rest)) == pre + rest
  {
    NoTimeBefore(pre, t + rest);
    TimeComplete(pre, t, rest, hs, ms, w, m);
    TokenFirst(Time, pre, t, rest);
  }

  /** An activity line cut into its pieces: free text, then a time, then a cost, then `+`
      and a location, separated by whitespace. The free text holds no digit, `$` or `+`. */
  ghost predicate ActivityPieces(content: string, text: string, time: string, cost: string, loc: string,
                                 w1: string, w2: string, w3: string, hs: string, ms: string, w: string,
                                 m: string, ds: string, range: string) {
    content == text + (w1 + (time + (w2 + (cost + (w3 + ("+" + loc))))))
    && Every(text, IsPlain) && AllSpace(w1) && AllSpace(w2) && AllSpace(w3)
    && TimeParts(time, hs, ms, w, m) && CostParts(cost, ds, range)
    && |loc| > 0 && '+' !in loc
  }

  /** An activity line of the form: free text, a time, a cost, then `+ location`, with the
      given free text, time, cost and location. */
  ghost predicate ActivityShape(content: string, text: string, time: string, cost: string, loc: string) {
    exists w1, w2, w3, hs, ms, w, m, ds, range ::
      ActivityPieces(content, text, time, cost, loc, w1, w2, w3, hs, ms, w, m, ds, range)
  }

  /** The pieces of an activity line, regrouped the way the parser takes them apart. */
  lemma ActivityGroups(text: string, w1: string, time: string, w2: string, cost: string, w3: string, loc: string)
    ensures var content := text + (w1 + (time + (w2 + (cost + (w3 + ("+" + loc))))));
            var before := text + w1;
            var pre := before + (time + w2);
            content == before + (time + (w2 + (cost + (w3 + ("+" + loc)))))
            && content == pre + (cost + (w3 + ("+" + loc)))
            && content == (pre + (cost + w3)) + ("+" + loc)
            && pre + w3 == before + (time + (w2 + w3))
            && before + (w2 + w3) == text + (w1 + (w2 + w3))
  {
  }

  /** Whitespace is plain text. */
  lemma SpacePlain(w: string)
    requires AllSpace(w)
    ensures Every(w, IsPlain)
  {
    EveryIff(w, IsSpace);
    EveryIff(w, IsPlain);
  }

  /** Plain text holds no digit, no `$` and no `+`. */
  lemma PlainMarks(s: string)
    requires Every(s, IsPlain)
    ensures '$' !in s && '+' !in s && forall i :: 0 <= i < |s| ==> !IsDigit(s[i])
  {
    EveryIff(s, IsPlain);
  }

  /** The location and the two tokens of an activity line of the form free text, time, cost,
      `+ location`, and what is left of it once the location, then the cost, then the time are cut out. */
  lemma ActivityMeta(text: string, w1: string, time: string, w2: string, cost: string, w3: string, loc: string,
                     hs: string, ms: string, w: string, m: string, ds: string, range: string)
    requires Every(text, IsPlain) && AllSpace(w1) && AllSpace(w2) && AllSpace(w3)
    requires TimeParts(time, hs, ms, w, m) && CostParts(cost, ds, range) && |loc| > 0 && '+' !in loc
    ensures var content := text + (w1 + (time + (w2 + (cost + (w3 + ("+" + loc))))));
            var pre := (text + w1) + (time + w2);
            LocationOf(content) == Some(Trim(loc)) && StripLocation(content) == pre + (cost + w3)
            && TokenOf(Cost, content) == Some(cost) && RemoveFirst(Cost, pre + (cost + w3)) == pre + w3
            && TokenOf(Time, content) == Some(time)
            && RemoveFirst(Time, pre + w3) == (text + w1) + (w2 + w3)
  {
    var before := text + w1;
    var pre := before + (time + w2);
    var tail := w3 + ("+" + loc);
    ActivityGroups(text, w1, time, w2, cost, w3, loc);
    SpacePlain(w1);
    EveryAppend(text, w1, IsPlain);
    PlainMarks(before);
    SpacePlain(w2);
    PlainMarks(w2);
    SpacePlain(w3);
    PlainMarks(w3);
    TimeMarks(time, hs, ms, w, m);
    CostMarks(cost, ds, range);
    LocationSuffix(pre + (cost + w3), loc);
    ActivityCost(pre, cost, w3, loc, ds, range);
    ActivityTime(before, time, w2, cost, w3, tail, hs, ms, w, m);
  }

  /** The cost of the line, and the cut once the location is gone. */
  lemma ActivityCost(pre: string, cost: string, w3: string, loc: string, ds: string, range: string)
    requires '$' !in pre && CostParts(cost, ds, range) && AllSpace(w3)
    ensures TokenOf(Cost, pre + (cost + (w3 + ("+" + loc)))) == Some(cost)
    ensures RemoveFirst(Cost, pre + (cost + w3)) == pre + w3
  {
    var tail := w3 + ("+" + loc);
    EveryIff(w3, IsSpace);
    if w3 != [] {
      assert tail[0] == w3[0];
    }
    CostFirst(pre, cost, tail, ds, range);
    CostFirst(pre, cost, w3, ds, range);
  }

  /** The time of the line, and the cut once the location and the cost are gone. */
  lemma ActivityTime(before: string, time: string, w2: string, cost: string, w3: string, tail: string,
                     hs: string, ms: string, w: string, m: string)
    requires (forall i :: 0 <= i < |before| ==> !IsDigit(before[i])) && TimeParts(time, hs, ms, w, m)
    ensures TokenOf(Time, before + (time + (w2 + (cost + tail)))) == Some(time)
    ensures RemoveFirst(Time, before + (time + (w2 + w3))) == before + (w2 + w3)
  {
    TimeFirst(before, time, w2 + (cost + tail), hs, ms, w, m);
    TimeFirst(before, time, w2 + w3, hs, ms, w, m);
  }

  /** `s` is `content` cut at the index `p` where the location expression matches, or
      `content` itself when `p` is `None` and the expression matches nowhere. */
  ghost predicate CutLocation(content: string, p: Option<nat>, s: string) {
    match p
    case None => (forall i :: !LocationAt(content, i)) && s == content
    case Some(q) => LocationAt(content, q) && s == content[..q]
  }

  /** `r` is `s` with the leftmost match of the token cut out, the match starting at `p` with
      the length the matcher reports there and no index before `p` matching; or, when `p` is
      `None`, the token matches at no index and `r` is `s`. */
  ghost predicate CutLeftmost(tok: Token, s: string, p: Option<nat>, r: string) {
    match p
    case None => (forall i :: 0 <= i <= |s| ==> TokenLenAt(tok, s, i) == 0) && r == s
    case Some(q) =>
      q <= |s| && TokenLenAt(tok, s, q) > 0
      && (forall i :: 0 <= i < q ==> TokenLenAt(tok, s, i) == 0)
      && r == s[..q] + s[q + TokenLenAt(tok, s, q)..]
  }

  /** Whatever cut of the leftmost match is described by index, it is the one `replace`
      makes, and the match at that index is what `match` reports. */
  lemma CutLeftmostIs(tok: Token, s: string, p: Option<nat>, r: string)
    requires CutLeftmost(tok, s, p, r)
    ensures RemoveFirst(tok, s) == r
    ensures p.None? ==> TokenOf(tok, s).None?
    ensures p.Some? ==> TokenOf(tok, s) == Some(s[p.value..p.value + TokenLenAt(tok, s, p.value)])
  {
    SearchStops(tok, s, p);
    if p.Some? {
      CutAt(tok, s, p.value, TokenLenAt(tok, s, p.value));
    }
  }

  /** The search stops at the leftmost index where the token matches, and at none if there
      is none. */
  lemma SearchStops(tok: Token, s: string, p: Option<nat>)
    requires p.None? ==> forall i :: 0 <= i <= |s| ==> TokenLenAt(tok, s, i) == 0
    requires p.Some? ==> p.value <= |s| && TokenLenAt(tok, s, p.value) > 0
                         && forall i :: 0 <= i < p.value ==> TokenLenAt(tok, s, i) == 0
    ensures FindFirst(tok, s, 0) == p
  {
    var f := FindFirst(tok, s, 0);
    if f.Some? {
      assert TokenLenAt(tok, s, f.value) > 0;
    }
    if p.Some? {
      assert TokenLenAt(tok, s, p.value) > 0;
    }
  }

  /** The title, described by where the three expressions match: the content is cut at the
      location's `+`, if the location expression matches; the leftmost cost match is cut out
      of what remains, if there is one; the leftmost time match is cut out of what remains
      then, if there is one; and the rest is trimmed. */
  lemma TitleOfCuts(content: string, l: Option<nat>, s: string, pc: Option<nat>, a: string,
                    pt: Option<nat>, b: string)
    requires CutLocation(content, l, s) && CutLeftmost(Cost, s, pc, a) && CutLeftmost(Time, a, pt, b)
    ensures Title(content) == Trim(b)
  {
    assert StripLocation(content) == s;
    CutLeftmostIs(Cost, s, pc, a);
    CutLeftmostIs(Time, a, pt, b);
  }

  /** On an activity line of the form free text, time, cost, `+ location`, each piece lands in its own field: the
      location is the trimmed text after the `+`, the time and the cost are the two tokens
      verbatim, and the title is the free text trimmed. */
  lemma ActivityFields(content: string, text: string, time: string, cost: string, loc: string)
    requires ActivityShape(content, text, time, cost, loc)
    ensures LocationOf(content) == Some(Trim(loc))
    ensures TokenOf(Time, content) == Some(time)
    ensures TokenOf(Cost, content) == Some(cost)
    ensures Title(content) == Trim(text)
  {
    var w1, w2, w3, hs, ms, w, m, ds, range :|
      ActivityPieces(content, text, time, cost, loc, w1, w2, w3, hs, ms, w, m, ds, range);
    var pre := (text + w1) + (time + w2);
    ActivityMeta(text, w1, time, w2, cost, w3, loc, hs, ms, w, m, ds, range);
    assert Title(content) == Trim((text + w1) + (w2 + w3));
    ActivityTitle(text, w1, w2, w3);
  }

  /** Trimming drops the whitespace left between the pieces that were cut out. */
  lemma ActivityTitle(text: string, w1: string, w2: string, w3: string)
    requires AllSpace(w1) && AllSpace(w2) && AllSpace(w3)
    ensures Trim((text + w1) + (w2 + w3)) == Trim(text)
  {
    EveryAppend(w2, w3, IsSpace);
    EveryAppend(w1, w2 + w3, IsSpace);
    assert (text + w1) + (w2 + w3) == text + (w1 + (w2 + w3));
    TrimSpaceSuffix(text, w1 + (w2 + w3));
  }
}
