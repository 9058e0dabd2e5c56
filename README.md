# Weekly availability coincidences, modelled in Dafny

The system reads lines such as `RENE=MO10:00-12:00,TU10:00-12:00`. Each line gives a person's
weekly availability windows. Every window is a day of the week (0 = Monday .. 6 = Sunday) plus a
start and a finish minute of that day. The lines are read into a registry, and a person who appears
on several lines has the new windows merged into their list. The system then reports, for every pair
of people in first-seen order, how many pairs of their windows "meet". A second entry point splits one
long input into named groups at lines starting with `INPUT:`.

The model has six modules:

- `Wrappers`: `Option` and `Result`.
- `Timeframes`:
  - the window type `Timeframe`;
  - the same-day test `MeetInDay` and the `Meet` predicate with its midnight rule;
  - the single-pass merge, given as the function `Merged` and as the scanning method `AddTimeframe`.
- `Parser`: the fixed-offset line parser.
  - It is given as the functions `ParseFrame`, `ParseFrames` and `ParseLine`, and as the method
    `ReadSchedule`, whose loop merges each window as it is read.
  - It has a renderer (`FormatFrame`, `FormatLine`) that serves as its inverse in round-trip lemmas.
- `Schedules`: reading all lines.
  - `Build` is the reference definition: parse every line or stop at the first bad one, then register the
    entries.
  - The mutable dictionary is the class `Registry`. Its fields are the names in insertion order and the
    table from name to windows. Its method `AddSchedule` merges a repeated name's windows in place.
  - `ReadSchedules` is the loop over lines.
- `Coincidences`:
  - the nested counting loop `CountCoincidences`, proved equal to `CountMeets` and to the number of
    position pairs whose windows meet;
  - the nested pair loops `PairUp`/`PairRow`, proved equal to `Pairs`;
  - `Run`, proved equal to `RunResult`.
- `InputSplitter`: the group splitter.
  - `Groups` is the reference definition and `GetInput` is the single loop that tracks the open group.

Errors are values. `ParseError` is either `TimeOutOfRange` or `Malformed`. `ScheduleError` carries the
kind (`WrongTime` or `CorruptedData`), the 1-based line number and the line text.

### Behaviour worth knowing

- **A merged list may keep two windows that meet.** `_add_timeframe` (main.py:58-67) merges a new
  window into the first one it meets and stops, so a window that bridges two entries joins only the
  first. `Timeframes.MergedSinglePass` exhibits a merged list whose two entries still meet, so no
  "no overlaps" invariant is stated.
- **Sunday 24:00 never meets Monday 00:00.** The midnight rule of `meet` (main.py:49-54) needs day
  numbers that differ by exactly 1, and Sunday (6) and Monday (0) differ by 6.
  `Timeframes.MeetFarDays` and `Timeframes.MeetIffShareWeekPoint` state this.
- **A line needs exactly one `=`.** `read_schedule` unpacks `line.split("=")` into exactly two parts
  (main.py:72), so a line with no `=` or with a second `=` is corrupted.
  `Parser.ParseLineNeedsOneSeparator` and `Parser.ParseLineSuccess` state this.

## Model

| member | source | states |
|---|---|---|
| Timeframes.MeetInDayIffSharedMinute | main.py:35-42 | for ordered intervals, the same-day test holds exactly when both windows contain a common minute of that day; closed intervals, so touching endpoints meet |
| Timeframes.MeetWholeDay | main.py:35-42 | a 00:00-24:00 window meets every valid window on its day |
| Timeframes.MeetSymmetric | main.py:45-55 | `meet(a, b) == meet(b, a)` for all windows |
| Timeframes.MeetIffShareWeekPoint | main.py:45-55 | on valid windows, `meet` holds exactly when the two windows, laid on one Monday-to-Sunday line of minutes, share a point; Sunday 24:00 and Monday 00:00 are different points |
| Timeframes.MeetFarDays | main.py:49-55 | windows whose day numbers differ by more than one never meet, Sunday/Monday included |
| Timeframes.MeetAcrossDays | main.py:49-55 | windows on different days meet exactly when the later one is on the next day, starts at 0, and the earlier one finishes at 1440 |
| Timeframes.MeetExamples | test.py:82-96 | the ten pairs of the meet tests give the expected answers, plus a Sunday/Monday pair that does not meet and a Monday/Tuesday pair that does |
| Timeframes.AddTimeframe | main.py:58-67 | the scan returns exactly `Merged(frames, t)` |
| Timeframes.MergedWithoutMeet | main.py:59-67 | when no entry meets `t` in-day, the result is `frames + [t]`; for the empty list, `[t]` |
| Timeframes.MergedAtFirstMeet | main.py:59-66 | when entry `i` is the first to meet `t` in-day, only index `i` changes, to the hull `(day, min start, max finish)`, and the length is unchanged |
| Timeframes.HullValid | main.py:61-65 | the hull of two valid windows that meet in-day is valid |
| Timeframes.HullCovers | main.py:61-65 | that hull covers exactly the minutes covered by either window |
| Timeframes.MergedValid | main.py:58-67 | merging a valid window into a valid list gives a valid list |
| Timeframes.MergedCoverage | main.py:58-67 | after merging, a minute is covered exactly when the old list or the new window covered it |
| Timeframes.MergedSinglePass | main.py:58-67 | merging (0,5,25) into [(0,0,10),(0,20,30)] gives [(0,0,25),(0,20,30)], whose two entries still meet |
| Timeframes.MergeAllValid | main.py:84-87 | merging a list of valid windows, one at a time, into a valid list keeps it valid |
| Timeframes.MergeAllAppend | main.py:86-87 | merging `xs` and then `ys` is the same as merging `xs + ys` |
| Timeframes.MergeAllCoverage | main.py:84-87 | after merging several windows, a minute is covered exactly when the old list or one of the windows covered it |
| Parser.Split | main.py:72 | splitting yields one more piece than there are separators |
| Parser.SplitJoin | main.py:72 | joining the pieces of a split with the separator gives the string back |
| Parser.SplitPiecesFree | main.py:74 | no piece of a split contains the separator |
| Parser.JoinSplit | main.py:74 | splitting pieces that were joined by a separator none of them contains gives the pieces back |
| Parser.DecimalDefined | main.py:76-77 | a field has a value exactly when it is non-empty and all ASCII digits |
| Parser.DecimalTwoDigits | main.py:76-77 | a zero-padded two-digit rendering of n < 100 reads back as n |
| Parser.DayIndexCode | main.py:71 | the day table maps MO..SU to 0..6 and back |
| Parser.ParseFrame | main.py:75-79 | every window that parses has day 0..6 and 0 <= start <= finish <= 1440 |
| Parser.ParseFormatFrame | main.py:75-79 | parsing the rendering of any valid window gives that window back |
| Parser.ParseFramesValid | main.py:74-80 | frames that parse are merged into a list that stays valid |
| Parser.ParseFramesFirstError | main.py:74-79 | a line's frames fail with the error of the first frame that fails |
| Parser.ParseFramesNonEmpty | main.py:74-80 | at least one frame parsed leaves a non-empty list |
| Parser.ParseFormatFrames | main.py:74-80 | rendered windows joined by commas parse back to the windows merged in order |
| Parser.ParseFramesIncreasingDays | main.py:74-80 | frames on strictly increasing days are all kept, unmerged and in order |
| Parser.ReadSchedule | main.py:70-81 | the parsing loop, which merges each frame as it is read, returns exactly `ParseLine(line)` |
| Parser.ParseLineNeedsOneSeparator | main.py:72 | a line with no `=`, or with more than one, is malformed |
| Parser.ParseLineSuccess | main.py:70-81 | a line that parses has exactly one `=`, a name without `=`, and a non-empty list of valid windows |
| Parser.ParseFormatLine | main.py:70-81 | rendering a name and valid windows as a line and parsing it gives the name and the windows merged in order |
| Parser.ParseLineJoined | main.py:72-81 | a name, `=` and comma-joined pieces parse as the pieces do, with the error of the first bad piece |
| Parser.RenderedLineParses | main.py:70-81 | a line of rendered windows on strictly increasing days parses to exactly those windows |
| Parser.ParseFrameOnlyFields | main.py:75-77 | a frame is read from its day code at 0-2 and its numbers at 2-4, 5-7, 8-10 and 11-13 only: two pieces that agree there parse alike, whatever the separators or any trailing text |
| Parser.ParseFrameMalformed | main.py:75-77 | a frame is malformed exactly when its day code is not one of MO..SU or one of its four number fields is empty or holds a non-digit |
| Parser.ParseFrameTimeError | main.py:76-80 | with a known day and four readable numbers, a frame is a time error exactly when start > finish or finish > 1440, and otherwise is the window (day, start, finish) |
| Parser.ParseFrameLateMinutes | main.py:76-78 | example: minutes above 59 are accepted, `MO10:75-12:00` starts at minute 675 |
| Parser.ParseFrameFixedOffsets | main.py:75-77 | example: `MO10x00y12z00 and more` parses as Monday 10:00-12:00, its odd separators and tail unread |
| Parser.ParseFrameTruncated | main.py:77 | example: `MO10:00-12:0`, cut after one digit of its last field, reads that one digit and ends at 12:00 |
| Parser.ParseFrameInvertedRange | main.py:78-79 | example: `MO12:00-10:00`, start after finish, is a time error |
| Parser.ParseFramePastMidnight | main.py:78-79 | example: `MO24:00-24:01`, finish past 1440, is a time error |
| Parser.ParseFrameUnknownDay | main.py:75 | example: `XX10:00-12:00`, an unknown day code, is malformed |
| Parser.ParseFrameNonDigit | main.py:76 | example: `MO1a:00-12:00`, a non-digit in a field, is malformed |
| Parser.ParseFrameEmpty | main.py:74-75 | example: the empty piece left by a trailing comma is malformed |
| Parser.ParseLineExample | main.py:70-81 | `A=MO10:00-12:00` parses to `("A", [(0,600,720)])` |
| Parser.ParseLineGarbage | main.py:72 | `abracadabra` is malformed |
| Parser.ParseLineFirstBadFrame | main.py:72-80 | a name, `=` and comma-joined pieces fail with the error of the first piece that fails, whatever follows it |
| Parser.ParseLineInverted | main.py:78-79 | example: `X=MO12:00-10:00`, whose only frame is inverted, is a time error, not a malformed line |
| Schedules.Registry.constructor | main.py:106 | a new registry is empty |
| Schedules.Registry.AddSchedule | main.py:84-89 | a new name is appended to the names and stores its windows as given; a known name has each window merged, in order, into its stored list; nothing else changes |
| Schedules.ReadSchedules | main.py:92-115 | the loop returns exactly `Build(lines)`: the error of the first bad line, or the registry of all lines |
| Schedules.ParseAllStopsAtFailure | main.py:107-113 | once a prefix of the lines fails, the whole input fails with that error |
| Schedules.FirstBadLine | main.py:107-113 | the first line that fails decides the error: its 1-based number, its text, and "wrong time" exactly when the parser reported a time error |
| Schedules.EachLineParses | main.py:107-114 | when every line parses, the entries are the lines' parses, one per line and in order |
| Schedules.AllLinesParse | main.py:107-114 | the same, for the schedule line parser |
| Schedules.ParsedLinesParse | main.py:107-113 | parsing all lines succeeds only if every line parses |
| Schedules.ParseAllSucceeds | main.py:107-113 | parsing all lines succeeds exactly when every line parses |
| Schedules.BuildSucceeds | main.py:107-115 | reading succeeds exactly when every line parses |
| Schedules.BuildParsed | main.py:106-115 | lines that parse one by one to some entries build the registry of those entries |
| Schedules.AddEntryWellFormed | main.py:84-89 | adding valid windows keeps names distinct, names equal to the table's keys, and windows valid |
| Schedules.RegisterWellFormed | main.py:106-115 | the registry built from parsed lines is well formed |
| Schedules.RegisterNames | main.py:84-89 | a name is registered exactly when some line carries it, and the names are exactly the table's keys |
| Schedules.RegisterOrder | main.py:84-89 | names are listed in the order of their first lines |
| Schedules.RegisterCoverage | main.py:84-89 | a person's registered windows cover exactly the minutes listed for them on all their lines |
| Schedules.BuildWellFormed | main.py:92-115 | a successful read is well formed and registers exactly the names of the input lines |
| Coincidences.CountCoincidences | main.py:118-124 | the nested loop returns `CountMeets` of the two people's windows, which is the number of position pairs (i, j) whose windows meet |
| Coincidences.CountMeetsPairs | main.py:118-124 | `CountMeets` equals the size of the set of position pairs (i, j) with `meet(xs[i], ys[j])` |
| Coincidences.RowPairsCount | main.py:121-123 | one window's row count equals the number of positions j with `meet(x, ys[j])` |
| Coincidences.CountRowBound | main.py:120-123 | one window meets at most as many windows as it is compared with |
| Coincidences.CountMeetsBound | main.py:118-124 | a count lies between 0 and the number of window pairs |
| Coincidences.CountMeetsSymmetric | main.py:118-124 | the count for two people does not depend on their order |
| Coincidences.PairRow | main.py:139-143 | the inner loop returns names[i] paired with each later name, in order |
| Coincidences.PairUp | main.py:136-143 | the outer loop returns `Pairs` of the registry's names |
| Coincidences.Run | main.py:127-143 | the method returns `RunResult(lines)`: the read error, or the pairs of the registry's names |
| Coincidences.PairsLength | main.py:136-143 | there are n * (n - 1) / 2 results for n names |
| Coincidences.PairsAt | main.py:138-143 | the pair (names[i], names[j]), i < j, sits at its row-major position with its count |
| Coincidences.PairsOnly | main.py:138-143 | every result is the result of some pair i < j |
| Coincidences.RunCounts | main.py:127-143 | a successful run yields n * (n - 1) / 2 results for its n names, and none pairs a name with itself |
| Coincidences.RunFewNames | main.py:137-138 | fewer than two names yield no results |
| Coincidences.RunEmpty | test.py:203-207 | empty input yields no results |
| Coincidences.ExampleBuilds | test.py:13-32 | the three-line example builds the registry of its three entries |
| Coincidences.ExampleRegistry | test.py:13-32 | that registry lists RENE, ASTRID, ANDRES in that order, with their windows |
| Coincidences.ReneCount | test.py:122-127 | RENE's windows meet ASTRID's twice |
| Coincidences.OthersCount | test.py:122-127 | ASTRID's and ANDRES's windows meet three times |
| Coincidences.ExamplePairs | test.py:122-132 | the example registry yields (RENE,ASTRID,2), (RENE,ANDRES,2), (ASTRID,ANDRES,3) |
| Coincidences.RunExample | test.py:122-132 | a run on the three-line example yields those three results, in that order |
| Coincidences.RunBrokenInput | test.py:209-218 | for any input of two or more lines whose first line parses, `abracadabra` as line 2 stops the run with a corrupted-data error on line 2 |
| Coincidences.SecondLineMalformed | main.py:107-113 | for any input of two or more lines, a malformed second line after a good first line is a corrupted-data error on line 2 |
| InputSplitter.GetInput | main_multiple_inputs.py:6-18 | the loop returns exactly `Groups(lines)` |
| InputSplitter.SplitFromContent | main_multiple_inputs.py:9-18 | the groups still to come hold the open group's lines and then every unread non-marker line |
| InputSplitter.GroupsContent | main_multiple_inputs.py:9-18 | concatenating the groups gives exactly the non-marker lines, in order |
| InputSplitter.SplitFromNonEmpty | main_multiple_inputs.py:11-17 | no group still to come is empty |
| InputSplitter.GroupsNonEmpty | main_multiple_inputs.py:11-17 | every yielded group holds at least one line |
| InputSplitter.SplitFromNoMarker | main_multiple_inputs.py:10-16 | if the open group holds no marker, no later group does |
| InputSplitter.GroupsNoMarker | main_multiple_inputs.py:10-16 | no group contains a marker line |
| InputSplitter.SplitFromCount | main_multiple_inputs.py:10-18 | at most one group per unread marker, plus the open one |
| InputSplitter.GroupsCount | main_multiple_inputs.py:10-18 | there are at most as many groups as markers plus one |
| InputSplitter.SplitFromWithoutMarkers | main_multiple_inputs.py:9-18 | without markers, the open group takes every remaining line |
| InputSplitter.GroupsWithoutMarkers | main_multiple_inputs.py:7-18 | input without markers yields nothing when empty, otherwise one group named "" with all lines |
| InputSplitter.SplitFromNames | main_multiple_inputs.py:7-13 | each group still to come is a run of consecutive lines, named as the place it starts opens |
| InputSplitter.GroupsNames | main_multiple_inputs.py:7-13 | every group is a run of consecutive input lines; the run at the top is named "", any other after its marker line without the first seven characters |
| InputSplitter.MarkerOpensNoGroup | main_multiple_inputs.py:11-17 | for every input, a marker followed by another marker, or by the end of input, yields no group: no group is a run starting just after it |
| InputSplitter.EmptyGroupSkipped | main_multiple_inputs.py:11-17 | example: `["INPUT: a", "INPUT: b", "x"]` gives only ("b", ["x"]), and `["x", "INPUT: a"]` gives only ("", ["x"]) |

## Left out

- The command-line entry points are not modelled (main.py:146-168, main_multiple_inputs.py:21-58).
  These are argument parsing, file reading and writing, printing, and the rebasing of error line
  numbers across groups. Input arrives as a sequence of lines and results are returned as values.
- Exception message texts (main.py:9-32) are presentation only. Errors are the `ScheduleError`
  value with its kind, line number and line.
- `Parser.Decimal` reads a field only as ASCII digits. Python's `int` also accepts a sign, surrounding
  whitespace, underscores between digits and non-ASCII digits, and all of these are `Malformed` in
  the model. One consequence: a field such as `-1` or ` 1` is a time error or a value in the program
  but a corrupted line in the model.
- The generators `run` and `_get_input` are modelled as functions and methods returning finite
  sequences. Laziness is not modelled, so an error raised at the first `next()` is a `Failure` result.
- `Timeframes.AddTimeframe` and `Schedules.Registry.AddSchedule`: list identity is not modelled. The
  list `_add_timeframe` updates in place is a `seq` value that the method returns or the registry
  reassigns. No list is shared in the source, so nothing observable is lost.
- The conversion of plain tuples into named windows (main.py:46-47) is not modelled, and neither is
  the dynamic-typing test (test.py:220-225). Windows are always `Timeframe` values and lines are
  always strings.
- `Coincidences.RunExample` states the three-line example as `EXAMPLE_LINES`, each line written as
  its name, `=` and its frames joined by commas, rather than as one string literal. The two denote
  the same text.
- The frame lists expected by the registry tests (test.py:20-30, 41-51, 64-74) are not stated. Those
  tests compare only the names, and some of the listed lists differ from what the merge produces.
