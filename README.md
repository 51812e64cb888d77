# Itinerary markdown parser

This project is a Dafny model of `parseItinerary`, the parser that turns the markdown travel
plan written by the language model into itinerary days. Each day has a number, a location
and three sections (morning, afternoon, evening) of activities. Each activity has a title
and an optional location, time, cost and tip.

The parser makes one forward pass over the lines of the text. It keeps the current day, the
current section and an activity accumulator. It recognises four kinds of line:

- a day header, `# Day N: Location`;
- a section marker, found by substring containment (🗓 Morning, ☀️ Afternoon, 🌙 Evening);
- an activity bullet, `- …`, from which it takes the location after `+`, a time such as
  `9:00 AM` and a cost such as `$25`, leaving the rest as the title;
- a tip line, `💡 …`, which annotates the last activity of the current section.

Every other line is ignored, so the parser never fails.

The model has six modules:

- `Common` (common.dfy) holds `Option` and the three sections, shared by the others.
- `Text` (text.dfy) holds the ECMAScript string operations the parser uses: the `\s`, `\d`
  and `.` classes, `trim`, `includes`, `split('\n')` and the decimal value `parseInt`
  reads.
- `Patterns` (patterns.dfy) writes each regular expression as a matcher on `seq<char>`.
  Each matcher sits beside a declarative description of the strings the expression
  accepts, with soundness and completeness lemmas between the two. The matchers follow
  the engine's own rules: leftmost match, greedy quantifiers with backtracking, `$` as the
  end of the input, and `.` refusing line terminators.
- `Itinerary` (itinerary.dfy) holds the records and the pass written as a fold. `Step` is
  one iteration of the loop, `Run` folds it over the lines and `Parse` is the whole parser.
- `ItineraryParser` (parser.dfy) holds the loop itself. `ParseItinerary` is an imperative
  `for` loop over the lines that updates `days`, `currentDay`, `currentSection` and
  `currentActivity`, and it is proved equal to `Parse`.
- `ItineraryProperties` (properties.dfy) proves what the parser promises about `Parse`:
  - one day per header line, in order;
  - no day without a header;
  - pushed days are never changed again;
  - activities go only to the current section;
  - non-empty, trimmed titles and trimmed locations and tips;
  - tips overwrite earlier tips and are dropped in an empty section;
  - the section is the one set by the last marker line;
  - each field of the accumulator holds what the last bullet to decide it left there, so
    the next activity pushed carries the latest location, time and cost since the last push.

The model keeps these behaviours of the code, which are easy to miss on a first reading:

- A new day header does not reset the current section.
- A bullet whose title strips to nothing does not clear the accumulator. Its location, time
  and cost appear on the next activity that is pushed, unless that bullet sets them again.
- The whitespace between `Day` and the number is optional. `# Day1: Paris` is a header.
- A line may contain several section markers. The first in the order morning, afternoon,
  evening wins.
- A header whose text after the colon is only whitespace still opens a day, and its location
  is then the empty string. The exception is a text whose last code point is a line
  terminator, such as `# Day 1: \r`: `.` cannot match it, so the line is no header at all.

## Model

| member | source | states |
|---|---|---|
| `ItineraryParser.ParseItinerary` | src/lib/parseItinerary.ts:24-115 | The loop returns exactly `Parse(markdown)`: after each line its four locals equal the fold of `Step` over the lines read so far, and the day still open at the end is appended. |
| `ItineraryParser.AddActivity` | src/lib/parseItinerary.ts:66-99 | The bullet branch, as field-by-field updates of the accumulator followed by a conditional push, equals `Bullet` on the same inputs. |
| `ItineraryParser.SetTip` | src/lib/parseItinerary.ts:102-106 | The tip branch equals `AttachTip`: only the last activity of the section changes, and only when the section is not empty. |
| `Itinerary.Sections.Put` | src/lib/parseItinerary.ts:96 | Writing one section's list leaves the other two sections unchanged. |
| `Itinerary.Bullet` | src/lib/parseItinerary.ts:89-98 | A bullet keeps the day's number and location and changes no section except the current one. |
| `Itinerary.BulletLine` | src/lib/parseItinerary.ts:66-99 | Reading a line as a bullet keeps the day's number and location and touches only the current section. |
| `Itinerary.AttachTip` | src/lib/parseItinerary.ts:103-105 | A tip keeps the day's number and location and every section's length, and touches only the current section. |
| `Itinerary.TipLine` | src/lib/parseItinerary.ts:102-106 | Reading a line as a tip never changes the number of activities in any section, and touches only the current section. |
| `ItineraryProperties.StepHeader` | src/lib/parseItinerary.ts:33-48 | A header line pushes the open day, if any, and opens a day with the header's number and location and three empty sections. The section and the accumulator carry over. |
| `ItineraryProperties.StepMarker` | src/lib/parseItinerary.ts:51-60 | A marker line sets the section to the first of morning, afternoon and evening whose marker it contains, and changes nothing else. |
| `ItineraryProperties.StepOutside` | src/lib/parseItinerary.ts:62-63 | Without an open day or a chosen section, a line that is neither a header nor a marker changes nothing. |
| `ItineraryProperties.StepKeepsOtherSections` | src/lib/parseItinerary.ts:63-106 | A line that is not a header never changes the days already pushed or the open day's number and location, and it changes no section except the current one. |
| `ItineraryProperties.BulletPushes` | src/lib/parseItinerary.ts:95-98 | A bullet with a non-empty title appends exactly one activity to the current section. The activity carries that title, the absorbed location, time and cost, and no tip. The accumulator is then reset. |
| `ItineraryProperties.BulletKeeps` | src/lib/parseItinerary.ts:95 | A bullet whose title strips to nothing leaves the day unchanged, and the accumulator keeps every field the content does not set. |
| `ItineraryProperties.TipSetsLast` | src/lib/parseItinerary.ts:104-105 | A tip sets the `tip` field of the section's last activity and changes no other activity and no other field. |
| `ItineraryProperties.TipDropped` | src/lib/parseItinerary.ts:103 | A tip in a section with no activity is dropped. |
| `ItineraryProperties.TipOverwrites` | src/lib/parseItinerary.ts:105 | Two tips in a row leave the same day as the second tip alone: a later tip overwrites an earlier one. |
| `ItineraryProperties.StepSection` | src/lib/parseItinerary.ts:33-63 | Only a marker line that is not a header changes the section, and it sets the section to its own. |
| `ItineraryProperties.RunSection` | src/lib/parseItinerary.ts:28-60 | After any run of lines, the section is the one of the last marker line that is not a header. When there is no such line, it is the section the run started with. |
| `ItineraryProperties.StepPending` | src/lib/parseItinerary.ts:29-98 | One line changes a field of the accumulator only when it is a bullet read inside a day and a section that is either pushed, which clears the field, or holds that field, which replaces it. |
| `ItineraryProperties.RunCarries` | src/lib/parseItinerary.ts:29-98 | After any run of lines, each of location, time and cost holds what the last line to decide it left there. No later line decides it. With no such line it holds its starting value. So headers, markers, tips, other lines and bullets that set other fields carry it over, and the next activity pushed gets the latest value since the previous push. |
| `ItineraryProperties.StepHeaders` | src/lib/parseItinerary.ts:33-47 | One line adds its header, if it holds one, to the (number, location) list of the days pushed or still open, and adds nothing otherwise. |
| `ItineraryProperties.ParseHeaders` | src/lib/parseItinerary.ts:31-112 | The result has one day per line the header expression matches, in line order, with that line's parsed number and trimmed location. |
| `ItineraryProperties.NoHeaderNoDays` | src/lib/parseItinerary.ts:110-112 | The result is empty exactly when no line is a day header, in both directions. |
| `ItineraryProperties.Preamble` | src/lib/parseItinerary.ts:27-63 | Lines before the first header push no day, open none and leave the accumulator empty. |
| `ItineraryProperties.NoMarkerNoActivities` | src/lib/parseItinerary.ts:50-63 | In a text with no section marker, every day of the result has three empty sections. |
| `ItineraryProperties.DaysFinal` | src/lib/parseItinerary.ts:35-36 | A day once pushed is a prefix element of the result for good: later lines never change or remove it. |
| `ItineraryProperties.StepWellFormed` | src/lib/parseItinerary.ts:38-106 | Each iteration keeps every activity's title non-empty and trimmed, and its location and tip absent or trimmed, together with the accumulator's location. |
| `ItineraryProperties.ParseWellFormed` | src/lib/parseItinerary.ts:89-98 | Every activity in the result has a non-empty, trimmed title, and a location and a tip that are absent or trimmed. |
| `Patterns.RestCaptureSpec` | src/lib/parseItinerary.ts:66 | The backtracking matcher for `\s*(.+)$` matches exactly when some split into whitespace and terminator-free text exists, and its group is the shortest such suffix. |
| `Patterns.DayHeaderSound` | src/lib/parseItinerary.ts:33 | Every reported header line is `#`, whitespace, `Day`, whitespace, digits, `:` and a rest the expression accepts, and it yields the digits' value and the trimmed rest. |
| `Patterns.DayHeaderComplete` | src/lib/parseItinerary.ts:39-40 | Every line made of those pieces is reported, with the digits' value and the trimmed rest. |
| `Patterns.TerminatorEndsNoHeader` | src/lib/parseItinerary.ts:26 | A line ending in a carriage return, as every line but the last of a CRLF text does after `split('\n')`, is never a day header. |
| `Patterns.SectionMarkerOccurs` | src/lib/parseItinerary.ts:51-59 | The section chosen is morning exactly when the morning marker occurs at some index of the line, afternoon exactly when the morning marker occurs nowhere and the afternoon one somewhere, evening likewise, and none exactly when no marker occurs. |
| `Patterns.MatchActivity` | src/lib/parseItinerary.ts:66-68 | A line is a bullet exactly when it starts with `-` and the rest can match `\s*(.+)$`. The content is a non-empty suffix of the line with no line terminator. |
| `Patterns.MatchTip` | src/lib/parseItinerary.ts:102 | A line is a tip exactly when it starts with 💡 and the rest can match `\s*(.+)$`. The tip is that rest trimmed. |
| `Patterns.BulletIsNotTip` | src/lib/parseItinerary.ts:102 | No line is both a bullet and a tip. |
| `Patterns.FindLocation` | src/lib/parseItinerary.ts:71 | The location expression can match at most at one index, the last `+`, and only when at least one code point follows it. |
| `Patterns.LocationOf` | src/lib/parseItinerary.ts:71-74 | A location is found exactly when some `+` is followed by at least one code point and by no other `+`. The location is trimmed. |
| `Patterns.LocationOfAt` | src/lib/parseItinerary.ts:71-73 | Where the expression matches, the location is the trimmed text after that `+`. |
| `Patterns.StripLocation` | src/lib/parseItinerary.ts:90 | Removing the location cuts the content at the matching `+`, and leaves it whole when there is none. |
| `Patterns.TimeSound` | src/lib/parseItinerary.ts:77 | Every match the time matcher reports at an index is one or two digits, `:`, two digits, whitespace and `AM`, `PM`, `am` or `pm`. |
| `Patterns.TimeComplete` | src/lib/parseItinerary.ts:77 | Wherever a time token starts, the matcher reports a match of exactly that token's length, whatever follows it. |
| `Patterns.CostSound` | src/lib/parseItinerary.ts:83 | Every match the cost matcher reports at an index is `$`, digits, and optionally `-` and digits. |
| `Patterns.CostComplete` | src/lib/parseItinerary.ts:83 | Wherever a cost token starts, the greedy matcher reports a match at least as long. |
| `Patterns.CostExact` | src/lib/parseItinerary.ts:83 | When neither a digit nor a `-` follows the token, the match is exactly the token. |
| `Patterns.FindFirst` | src/lib/parseItinerary.ts:77-83 | The search returns the leftmost index where the expression matches, and no index before it matches. |
| `Patterns.TokenOf` | src/lib/parseItinerary.ts:77-86 | A time or cost found is non-empty, and none is found only when the expression matches at no index. |
| `Patterns.LeftmostMatch` | src/lib/parseItinerary.ts:77-86 | The time or cost found is the verbatim text of the leftmost match: it starts at an index where the expression matches with that length, and no earlier index matches. |
| `Patterns.TimeOfIsToken` | src/lib/parseItinerary.ts:78-79 | The time stored on an activity is a whole time token. |
| `Patterns.CostOfIsToken` | src/lib/parseItinerary.ts:84-85 | The cost stored on an activity is a whole cost token, `$` included. |
| `Patterns.TimeFoundBy` | src/lib/parseItinerary.ts:77 | A time token anywhere in the content is found, at its own index or an earlier one. |
| `Patterns.CostFoundBy` | src/lib/parseItinerary.ts:83 | A cost token anywhere in the content is found, at its own index or an earlier one. |
| `Patterns.RemoveFirst` | src/lib/parseItinerary.ts:91-92 | `replace` leaves the text unchanged when nothing matches, and otherwise removes exactly as many code points as the leftmost match holds. |
| `Patterns.RemoveFirstCuts` | src/lib/parseItinerary.ts:91-92 | `replace` removes exactly the leftmost match that `match` reports: the result is the text before it followed by the text after it. |
| `Patterns.Title` | src/lib/parseItinerary.ts:89-93 | The title neither starts nor ends with whitespace, and trimming it again changes nothing. |
| `Patterns.CutLeftmostIs` | src/lib/parseItinerary.ts:77-92 | When the token matches at index `p` and at no earlier index, `match` reports that match and `replace` returns the text before `p` followed by the text after the match. When it matches at no index, `match` reports nothing and `replace` returns the text unchanged. |
| `Patterns.TitleOfCuts` | src/lib/parseItinerary.ts:89-93 | Described by where the expressions match: cut the content at the location's `+` if the location expression matches; cut out the cost matched at the leftmost index of what remains, if any; cut out the time matched at the leftmost index of what remains then, if any; the title is what is left, trimmed. |
| `Patterns.CostFirst` | src/lib/parseItinerary.ts:83-91 | A cost token with no `$` before it, and followed by neither a digit nor a `-`, is the cost found and the text `replace` cuts out. |
| `Patterns.TimeFirst` | src/lib/parseItinerary.ts:77-92 | A time token with no digit before it is the time found and the text `replace` cuts out. |
| `Patterns.ActivityFields` | src/lib/parseItinerary.ts:68-93 | For a bullet written as free text, a time, a cost and `+ location`, separated by whitespace, where the free text holds no digit, `$` or `+`: the location is the location trimmed, the time and the cost are the two tokens verbatim, and the title is the free text trimmed. |
| `Patterns.TokenNeedsMark` | src/lib/parseItinerary.ts:77-83 | A time match always holds a `:`, and a cost match always starts with `$`. |
| `Patterns.PlainTitle` | src/lib/parseItinerary.ts:71-93 | Content with no `+`, `$` or `:` yields no location, time or cost, and its title is the content trimmed. |
| `Text.Split` | src/lib/parseItinerary.ts:26 | Splitting gives at least one line, none holding a newline, and joining them with newlines gives back the text. |
| `Text.SplitJoin` | src/lib/parseItinerary.ts:26 | Splitting undoes joining for lines that hold no newline. |
| `Text.ContainsSpec` | src/lib/parseItinerary.ts:51 | `includes` is true exactly when the marker occurs at some index. |
| `Text.TrimSpec` | src/lib/parseItinerary.ts:40 | `trim` keeps a slice of the text with only whitespace outside it, and the result neither starts nor ends with whitespace. |
| `Text.TrimIdempotent` | src/lib/parseItinerary.ts:93 | Trimming a trimmed text changes nothing. |
| `Text.LeadingZero` | src/lib/parseItinerary.ts:40 | Leading zeros do not change the day number `parseInt` reads from the digits, so `Day 007` is day 7. |

## Left out

- The `unified`, `remark-parse` and `remark-gfm` imports (src/lib/parseItinerary.ts:1-3) are never called by the parser.
- `description` in `Activity` is never set by the parser, so it is not a field of the model.
- The accumulator's `title` is not part of `Pending`. It is assigned on every bullet before it is read, so it never carries information from one line to the next.
- Mutation in place is modelled with values. The parser builds a fresh object for every day and every pushed activity and refers to each from one place only, so pushing into `days` and into a section, and setting `tip` on a stored activity, give the same result as rebuilding the value. The model does not capture aliasing that the code never creates.
- Strings are sequences of Unicode code points. JavaScript strings are UTF-16 code units, which differs only for text holding unpaired surrogates.
- `parseInt` is modelled as the exact decimal value of the digit run. Above 2^53 the JavaScript number loses precision. A run of more than about 309 digits gives `Infinity`. The model captures neither.
- Line endings: only `'\n'` separates lines. A carriage return stays at the end of its line, and the anchored expressions then refuse that line, as `TerminatorEndsNoHeader` states for headers.
- No concrete example document is proved. The proofs are for all inputs.
- The rest of the repository is not part of this model: the API service that calls the language model, the pages and components, the hotel filter, the carousels, the wallet mock and the store.
