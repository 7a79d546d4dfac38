# Taskwarrior widget: task-list formatter

A Dafny model of the formatter at the heart of the Taskwarrior desktop widget
(`taskwarrior.jsx`). Each render takes the JSON export of `task export`, and:

1. normalises every record (`processTask`):
   - the compact due date `YYYYMMDDTHHMMSSZ` is rebuilt as extended ISO 8601;
   - "today" is truncated to local midnight, and the due instant only to the start of its local hour;
   - the signed millisecond difference replaces `due`;
   - a `units` offset (years, months, weeks or days) is added;
   - the tags are flattened to `+a +b`, a started task gets the star indicator, and urgency is fixed to two decimals;
2. sorts the list in place, ascending by `due - urgency / 1000`, with a missing due counting as `maxDue`;
3. keeps the first 20 rows;
4. colours each row from the sign of its difference, with an alpha fading as `1 - rank / 20`;
5. turns a failure into "No tasks found." (when there was no output) or an error message.

Modules, one per stage:

- `Timestamp` (`timestamp.dfy`): the due-string reformatting, its inverse, and the local-hour and local-midnight truncation.
- `DueOffset` (`due_offset.dfy`): the unit selection.
- `TagJoin` (`tag_join.dfy`): the tag text, with a `split`-based inverse.
- `Tasks` (`tasks.dfy`): the record, `processTask`, and `map(processTask)` over the parsed array.
- `Ordering` (`ordering.dfy`): the sort key and a stable insertion sort. The sort is a function, plus an in-place array method proved equal to it.
- `Display` (`display.dfy`): the opacity table, the base colours, `colourTask` and `rgbaString`.
- `Render` (`render.dfy`): the whole render and its three outcomes.

Representation choices:

- Instants are integer milliseconds, and the local zone is a fixed offset from UTC.
- Urgency and alpha are integers counting hundredths, the precision `toFixed(2)` gives them. The sort key scaled by 100000, `due * 100000 - urgency`, is then an exact integer.
- A record's fields change kind in place (`due` goes from text to a number, `tags` from a list to text). So `Due` and `Tags` each have one variant per kind.
- `map(processTask)`, `map(colourTask)` and the sort are methods over arrays of records (`ProcessTasks`, `ColourTasks`, `SortInPlace`); `processTask` itself rewrites one record value (`ProcessTask`), and the opacity loop builds a sequence (`BuildOpacities`). Each method is proved equal to a function, and the properties are proved about those functions.

Where the code departs from its own comment (taskwarrior.jsx:64, "truncate ... to the nearest day") or from what a reader would expect, the model follows the code:

- The due date keeps its hour. A task due at 11:00 today has a difference of 11 hours, shows `0d`, and gets the normal colour, not the due-today colour (`Timestamp.DueToday`).
- A parsed empty list `[]` renders an empty table, not "No tasks found." (`Render.EmptyListIsEmptyTable`).
- A due date the host cannot parse is not an error in the code, because `new Date` yields an invalid date rather than throwing (see Left out).
- A due field holding the empty string is falsy. It is kept as it is and sorts as `maxDue`. Because `"" == 0` in JavaScript, its row gets the due-today colour (`Display.BaseColour`).

## Model

| member | source | states |
|---|---|---|
| `Timestamp.IsoShape` | taskwarrior.jsx:58-62 | for a string of 13 or more characters, the result is 4 longer, has `-` at 4 and 7 and `:` at 13 and 16, and holds the same characters plus exactly two `-` and two `:` |
| `Timestamp.IsoTimestamp` | taskwarrior.jsx:58-62 | the reformatting itself; it has no contract of its own, and its properties are stated by `IsoShape`, `CompactRoundTrip`, `ExtendedRoundTrip` and `CompactIffExtended` |
| `Timestamp.CompactRoundTrip` | taskwarrior.jsx:60-62 | removing the four separators from the reformatted string gives the compact text back, so every other character keeps its order |
| `Timestamp.ExtendedRoundTrip` | taskwarrior.jsx:60-62 | the other direction: an extended ISO timestamp with its separators removed and then reformatted is unchanged |
| `Timestamp.CompactIffExtended` | taskwarrior.jsx:58-62 | the input is a well-formed `YYYYMMDDTHHMMSSZ` exactly when the output is a well-formed `YYYY-MM-DDTHH:MM:SSZ` |
| `Timestamp.StartOfHour` | taskwarrior.jsx:69-71 | clearing minutes, seconds and milliseconds gives the latest local hour boundary at or before the instant |
| `Timestamp.StartOfDay` | taskwarrior.jsx:65-68 | clearing hours and everything below gives the latest local midnight at or before the instant |
| `Timestamp.DueDifference` | taskwarrior.jsx:73 | the due instant truncated to its hour minus today truncated to midnight; no contract of its own, its properties are stated by `DifferenceInWholeHours` and `DueToday` |
| `Timestamp.StartOfDayIdempotent` | taskwarrior.jsx:65-71 | local midnight is a fixed point of both truncations |
| `Timestamp.DifferenceInWholeHours` | taskwarrior.jsx:64-73 | the due difference is always a whole number of hours |
| `Timestamp.DueToday` | taskwarrior.jsx:64-73 | a task due on the same local day has a difference in [0, one day), and the difference is zero only for a due time in the midnight hour |
| `DueOffset.SelectUnit` | taskwarrior.jsx:73-86 | the unit is years, months or weeks exactly when the magnitude strictly exceeds 365.25, 30.42 or 7 days (and not the coarser one), otherwise days; the count is the floor of the difference over the unit's length |
| `DueOffset.OffsetSign` | taskwarrior.jsx:74-86 | the count is negative exactly when the difference is, and it is never 0 for years, months or weeks |
| `DueOffset.WholeDays` | taskwarrior.jsx:80-86 | a difference of n whole days with abs(n) at most 7 is reported as n days, so 0 is `0d` |
| `DueOffset.SameDay` | taskwarrior.jsx:83-86 | any difference from 0 up to just under one day is `0d` |
| `DueOffset.CoarseBoundaries` | taskwarrior.jsx:74-82 | just over a week is `1w`, minus that is `-2w` (floor), just over a year is `1y`, and exactly 365.25 days is `12m` |
| `TagJoin.JoinTags` | taskwarrior.jsx:91-93 | the text is empty exactly when the list is, and otherwise starts with `+` |
| `TagJoin.SplitJoin` | taskwarrior.jsx:92 | splitting on the separator undoes `join` when no part contains it |
| `TagJoin.TagsRoundTrip` | taskwarrior.jsx:90-93 | for a non-empty list of tags without spaces, splitting the text on spaces gives exactly the tags, each with `+` in front, and the tags are recovered in order |
| `Tasks.ProcessTask` | taskwarrior.jsx:54-104 | rewriting the record field by field yields the normalised record `Processed` |
| `Tasks.ProcessedFields` | taskwarrior.jsx:56-101 | a non-empty due date becomes the difference, a whole number of hours, with matching `units`; an absent one stays absent and `units` is untouched; tags become `JoinTags` of the list; `start` becomes the indicator only when non-empty; absent urgency becomes 0, any other is kept; id, description and project are untouched |
| `Tasks.ProcessTasks` | taskwarrior.jsx:137 | every element of the array is replaced by its normalised record |
| `Ordering.EffectiveDue` | taskwarrior.jsx:140-143 | a numeric due, 0 included, is used as is; a missing or empty one counts as `maxDue`; no contract of its own, stated through `NoDueAfterDue` and `SortByKeySorted` |
| `Ordering.Key` | taskwarrior.jsx:144-146 | the comparator's `due - urgency / 1000`, scaled by 100000 to an exact integer; no contract of its own, its ordering consequences are `EarlierDueFirst`, `MoreUrgentFirst` and `NoDueAfterDue` |
| `Ordering.SortByKeySorted` | taskwarrior.jsx:139-147 | the sorted list is non-decreasing by `due - urgency / 1000`, a missing due counting as `maxDue` |
| `Ordering.SortByKeyPermutes` | taskwarrior.jsx:139 | the sorted list is a permutation of the processed list |
| `Ordering.SortByKeyStable` | taskwarrior.jsx:139 | tasks with equal keys keep their input order |
| `Ordering.StableSortIsUnique` | taskwarrior.jsx:139-147 | any sorted list with the input's per-key order equals the insertion sort, so the host's stable sort gives the same list |
| `Ordering.SortedByGroups` | taskwarrior.jsx:139 | two sorted lists whose groups of equal keys agree are equal |
| `Ordering.EarlierDueFirst` | taskwarrior.jsx:142-146 | with urgencies in [0, 1000), a task due strictly earlier sorts strictly earlier |
| `Ordering.MoreUrgentFirst` | taskwarrior.jsx:144-146 | among tasks with the same due, the more urgent sorts earlier |
| `Ordering.NoDueAfterDue` | taskwarrior.jsx:140-143 | a task without a due, absent or the empty text, sorts after any task whose due, 0 included, is below `maxDue` |
| `Ordering.SortPair` | taskwarrior.jsx:139-146 | two tasks given with the larger key first come out swapped |
| `Ordering.InsertInPlace` | taskwarrior.jsx:139 | one insertion step moves an element into the sorted prefix and leaves the rest of the array alone |
| `Ordering.SortInPlace` | taskwarrior.jsx:139-147 | after the in-place sort the array holds `SortByKey`, the stable sort, of its old contents |
| `Display.Opacity` | taskwarrior.jsx:48 | the alpha of rank i is exactly 1 - i/20, in hundredths |
| `Display.OpacityFades` | taskwarrior.jsx:44-51 | the alphas strictly decrease with rank, from 1.00 at rank 0 to 0.05 at rank 19, and stay positive |
| `Display.BuildOpacities` | taskwarrior.jsx:45-51 | the table has 20 entries, the i-th being 1 - i/20 in hundredths |
| `Display.BaseColour` | taskwarrior.jsx:109-117 | the overdue colour exactly for a negative difference, the due colour exactly for a zero difference or the empty text, otherwise the normal colour; never an alpha of its own |
| `Display.ColourTasks` | taskwarrior.jsx:107-121 | every row becomes `Coloured`: a copy of its base colour carrying the alpha of its rank |
| `Display.Rgba` | taskwarrior.jsx:123-130 | the channels are the colour's own; the alpha is the colour's when it has one, otherwise the one passed |
| `Display.RowColours` | taskwarrior.jsx:170-176 | a coloured row is drawn in its base colour at its rank's alpha, and its tag cell in the tag colour at the same alpha |
| `Render.ShowFirst` | taskwarrior.jsx:150 | the first min(n, 20) rows, each coloured with the alpha of its rank |
| `Render.Render` | taskwarrior.jsx:132-203 | the render computes exactly `Rendered`: a table, "No tasks found." or an error |
| `Render.FailureOutcomes` | taskwarrior.jsx:186-201 | a failed parse with empty output gives "No tasks found."; with any other output, the error message |
| `Render.EmptyListIsEmptyTable` | taskwarrior.jsx:137-150 | a parsed `[]` gives an empty table |
| `Render.DisplayedRows` | taskwarrior.jsx:148-150 | the table has min(n, 20) rows; row i is the i-th task of the sorted, normalised list, coloured at alpha 1 - i/20 |
| `Render.DisplayedFades` | taskwarrior.jsx:118 | down the table each row's alpha is strictly below the previous one's, and the first row's is 1.00 |
| `Render.OverdueSortsFirst` | taskwarrior.jsx:139-150 | a task two days overdue with urgency 10 is shown first, in the overdue colour, ahead of one due in five days with urgency 50 |
| `Render.DueTodayRow` | taskwarrior.jsx:107-118 | a single task due at today's midnight gives one row showing `0d` in the due colour at alpha 1.00 |

## Left out

- `JSON.parse` is not modelled: its outcome is an input (`Render.Parsed`), either a syntax error, a value without `map` (a type error), or the list of records.
- Records come as Taskwarrior exports them: a due date as text and tags as a list (`Tasks.Raw`). The type errors a numeric `due` or non-list `tags` would raise are not modelled.
- `new Date(iso)` is the function `Env.instantOf`, which is total. For text the host cannot parse, the source gets an invalid date and NaN offsets (`NaNd`), with no exception. That path is not modelled.
- "Now" is read once per render (`Env.now`). The source reads the clock again for each task, which matters only across midnight.
- The local zone is a fixed offset from UTC. Daylight-saving transitions inside the truncated range are not modelled.
- `parseFloat` and `toFixed`: urgency is an integer number of hundredths. The text difference is not modelled: an absent or zero urgency shows as `0`, any other as two decimals.
- `Ordering.Key`: the comparator's floating-point rounding is not modelled; the model orders by the exact key. Near `maxDue` (8.64e12 ms) doubles are 2^-10 ms apart, so for tasks without a due date `maxDue - urgency / 1000` only distinguishes urgencies in buckets of about 0.98 points (below about 0.49 the urgency is absorbed entirely). The source therefore orders such tasks by urgency only coarsely, keeping input order within a bucket (4.99 and 5.00 tie, 5.00 and 6.00 do not), while the model orders them by exact urgency. The same rounding can merge close urgencies on tasks due far away.
- The host's sort algorithm is replaced by an insertion sort. `Ordering.StableSortIsUnique` shows that any stable sort by the key gives the same list.
- The `units` text (the count followed by `y`, `m`, `w` or `d`) is kept as the pair `DueOffset.Offset`. Decimal rendering is not modelled.
- Presentation is not modelled: JSX markup, the stylesheet link, `className`, the header row, and the textual `rgba(...)` layout.
- Host scheduling and logging are not modelled: `command`, `refreshFrequency`, the unused `error` argument of `render`, and `console.error`.
- `Object.freeze` and `Object.assign` are not modelled. Colours are values here, so the base constants cannot change and each row's colour is its own copy by construction. Aliasing is not modelled.
