# ChronoGather scheduling core in Dafny

ChronoGather is a Telegram bot. A game master creates an event with `/event`, and
players mark when they are free. The bot then works out the time blocks that suit
the group. This project models two parts of it:

- **The intersection engine** (`src/utils/intersection.py`).
  - `calculate_common_slots` files an event's availability records by day. The day
    is the date of a one-off event, or the weekday of a recurring one. It runs the
    coverage sweep `_find_intersections_for_day` on each day, then sorts all the
    blocks found by day and start time.
  - The "common to all" pass `_find_full_intersection_for_day` folds the two-pointer
    merge `_intersect_two_slot_lists` across users.
- **The command parser** `parse_event_command` (`src/handlers/events.py`). It reads
  `[-r] "title" <h>h<m>m [DD.MM.YYYY] @user ...` into a title, a duration in
  minutes, a recurrence flag, an optional date and a list of user names.

Times of day are whole minutes since midnight (`Intervals.Minute`, 0 to 1439). The
code's `timedelta(hours=h, minutes=m)` is 60·h + m, and `total_seconds() // 60` of a
difference is the difference itself.

The three Python exceptions the code can raise become values of `Outcomes.Failure`:
- `ValueError` for a missing event;
- `IndexError` for `user_ids[0]` on an empty list;
- `TypeError` when the final sort compares a `date` with a `float`.

The database read at `intersection.py:32-39` becomes two inputs: an optional event
(`is_recurring`, `duration_minutes`) and the availability records in query order.

Modules, following the program's structure:

| module | file | what it holds |
|---|---|---|
| `Intervals`, `Outcomes` | intervals.dfy | slots, ranges, blocks; the set of users whose intervals contain a span; results and failures |
| `StableSort` | stable_sort.dfy | `list.sort(key=...)` as an insertion sort, proved sorted, a permutation of its input and stable |
| `Calendar` | calendar.dfy | the dates `strptime` accepts (years 1–9999, month lengths, leap years) and their order |
| `Coverage` | coverage.dfy | `_find_intersections_for_day`: the timeline, its sort and the sweep, as a method proved against a specification function |
| `CoverageFinding` | coverage_finding.dfy | the counterexample for the tie-break finding below, for one day's sweep and for the whole calculation |
| `FullIntersection` | full_intersection.dfy | `_intersect_two_slot_lists` and `_find_full_intersection_for_day` as loops with invariants |
| `CommonSlots` | common_slots.dfy | `calculate_common_slots`: grouping, per-day sweep, the sort key and its failure |
| `Text` | text.dfy | `str.strip`, `str.split`, `lstrip`, `\d` and `int` as the parser uses them |
| `EventCommand` | event_command.dfy | the pattern as a recogniser, the duration arithmetic, the date check, the `-r` test and the user names |

Choices the code forces:

- **The sweep's tie-break.** The coverage pass takes a `TieBreak`:
  - `StartsFirst` is the key `(time, -type)` as written;
  - `EndsFirst` is the order the comment beside that key describes.

  `FindIntersectionsForDay`, and with it the driver `CalculateCommonSlots`, takes the
  tie-break as a parameter. The code as written is the driver with `StartsFirst`, and
  `EndsFirst` gives the corrected calculation (see Findings). The properties that
  hold for both are stated for both. `CommonSlotsExact` holds for the corrected one.
- **The final sort key.** The code sorts on `float(x[0] or 999)`. That turns weekday
  0 (Monday) into 999 as well as `None`, so Monday's blocks sort after Sunday's
  (`CommonSlots.MondaySortsAfterSunday`). This is modelled as written.
- **Mixed keys.** A one-off event whose records mix dates with missing dates makes
  the sort compare a `date` with a `float`. Python raises `TypeError` there. The
  model returns `Err(UnorderableKeys)` exactly then. `OneOffUnorderable` states when
  that happens, and `RecurringIsOrderable` shows a recurring event never fails.
- **The `-r` flag.** `is_recurring` tests whether `-r` is a whitespace token anywhere
  in the text, not just in front. A title or name holding ` -r ` also sets it.
  `ParseCommand` states this as written. `WellFormed` keeps `-` out of the titles and
  names of the commands `ParseRender` writes, so the flag comes from the front only.
- **Bare `@` tokens.** `u.lstrip('@')` of a bare `@` token is the empty string, so a
  parse can return an empty user name. `ParsedFields` states that the names are
  those of the tail's `@` tokens, in order, and that none starts with `@`.
- **The command name.** Text that still begins with `/event` fails the pattern
  (`CommandNameRefused`). The handler removes the command name before calling the
  parser.

## Model

| member | source | states |
|---|---|---|
| Calendar.DaysInMonth | src/handlers/events.py:59 | February has 29 days exactly in a Gregorian leap year; April, June, September and November have 30; the others 31 |
| Calendar.BeforeIsStrictTotalOrder | src/utils/intersection.py:61 | the order the sort uses on `date` keys is irreflexive, transitive, total and asymmetric |
| StableSort.Insert | src/utils/intersection.py:95 | inserting into a sorted list keeps it sorted and adds exactly one copy of the element |
| StableSort.Sort | src/utils/intersection.py:61 | the result is sorted by the key and is a permutation (same multiset) of the input |
| StableSort.InsertStable | src/utils/intersection.py:61 | insertion puts the new element ahead of the elements of its key already in the list, and changes no other key's elements |
| StableSort.SortStable | src/utils/intersection.py:61 | the sort is stable: for every key, the elements with that key come out in their input order |
| StableSort.SameKeyCons | src/utils/intersection.py:61 | the elements of a key in a list with one more element in front |
| StableSort.MovePast | src/utils/intersection.py:61 | two elements not both of a key may trade places without changing that key's elements |
| StableSort.NotBoth | src/utils/intersection.py:61 | an element below another's key is not of the same key as anything at or above it |
| Coverage.KeyLeIsTotalPreorder | src/utils/intersection.py:95 | the timeline key `(time, rank)` is a total preorder, as `list.sort` requires |
| Coverage.Skipped | src/utils/intersection.py:86-87 | with the key as written, exactly the overnight intervals (end before start) are skipped; a kept interval never ends before it starts, and with ends first it is not empty either |
| Coverage.SortedTimeline | src/utils/intersection.py:95 | the sorted timeline is in key order and holds exactly the points of the unsorted one |
| Coverage.BuildTimeline | src/utils/intersection.py:80-90 | the expansion loop yields, interval by interval, a start and an end point for each interval it does not skip |
| Coverage.TimelineMember | src/utils/intersection.py:80-90 | a point is on the timeline exactly when it is one of the two points of a kept input interval |
| Coverage.SortedTimelineMember | src/utils/intersection.py:95 | sorting neither adds nor drops a timeline point |
| Coverage.FindIntersectionsForDay | src/utils/intersection.py:66-119 | the method returns the blocks the specification `CoverageOf` assigns to the day's intervals (empty when no interval is kept) |
| Coverage.Sweep | src/utils/intersection.py:97-119 | the sweep loop over a chronological timeline produces the blocks emitted point by point |
| Coverage.SweepPoint | src/utils/intersection.py:101-117 | one iteration adds the point's user to or removes it from the active set, moves `current_time` forward to the point's time, and appends the block that ends there if anyone is active and it is long enough |
| Coverage.SweepStep | src/utils/intersection.py:101-117 | `current_time` never moves backwards, and after point `i` it is that point's time |
| Coverage.SegmentsOrigin | src/utils/intersection.py:103-111 | each emitted block runs between two consecutive timeline times, has someone active, is long enough, and counts the users active then |
| Coverage.SegmentsHoldEmitted | src/utils/intersection.py:111 | a block appended at some point stays in the final list |
| Coverage.SegmentsOrdered | src/utils/intersection.py:99-112 | blocks come out in time order: each ends no later than the next starts |
| Coverage.ActiveHasOpenStart | src/utils/intersection.py:114-117 | a user in the active set has a start point with no later end point of theirs |
| Coverage.ActiveUids | src/utils/intersection.py:114-117 | every active user id comes from some timeline point |
| Coverage.ActiveUsersSupport | src/utils/intersection.py:105-111 | every user active during an emitted block has an interval that contains the whole block, with either tie-break |
| Coverage.ActiveUserSupports | src/utils/intersection.py:105-111 | every user active during an emitted block has an interval that contains the whole block, with either tie-break (returns that interval) |
| Coverage.OpenStartSlot | src/utils/intersection.py:89 | an active user's open start point belongs to one of their kept intervals |
| Coverage.EndAfter | src/utils/intersection.py:90 | the end point of that interval comes at or after the block's point |
| Coverage.LaterEnd | src/utils/intersection.py:95 | an end point of the user that sorts after their open start lies past the block's point |
| Coverage.CoverageWellFormed | src/utils/intersection.py:103-111 | every block has start < end, is at least `required_duration_min` long and counts at least one user, so zero-length blocks at shared boundaries never appear |
| Coverage.CoverageOrdered | src/utils/intersection.py:99-112 | blocks never overlap and their starts strictly increase |
| Coverage.CoverageEndpoints | src/utils/intersection.py:103-111 | each block starts and ends at an endpoint of an input interval the pass keeps |
| Coverage.PointTimeIsEndpoint | src/utils/intersection.py:89-90 | each timeline time is an endpoint of a kept interval, and each timeline user id is an input user id |
| Coverage.CoverageCountBound | src/utils/intersection.py:97-117 | a block's count never exceeds the number of distinct user ids in the input |
| Coverage.ActiveWithinUids | src/utils/intersection.py:97-117 | the active set only ever holds input user ids |
| Coverage.CoverageSupported | src/utils/intersection.py:97-117 | a block's count is at most the number of users one of whose intervals contains the block |
| Coverage.CoverageEmpty | src/utils/intersection.py:86-93 | when every interval is skipped (including when there is no input), the result is empty |
| Coverage.OpenStartActive | src/utils/intersection.py:114-117 | a user with a start and no later end of theirs is in the active set |
| Coverage.EarlierFirst | src/utils/intersection.py:95 | in a sorted timeline a point at an earlier time comes first |
| Coverage.EndOutside | src/utils/intersection.py:90 | when a user's intervals do not overlap, each end point of theirs lies outside each of their other intervals |
| Coverage.NoEndBetween | src/utils/intersection.py:114-117 | taking ends first and with no overlaps per user, no end of the user falls between an interval's start and a block inside it |
| Coverage.SupporterActive | src/utils/intersection.py:105-111 | taking ends first and with no overlaps per user, every user with an interval containing a block is active during it |
| Coverage.BlockExact | src/utils/intersection.py:111 | such a block's count equals its number of supporters |
| Coverage.CoverageExact | src/utils/intersection.py:95-117 | taking ends first and with no user's intervals overlapping, each block counts exactly the users one of whose intervals contains it |
| Coverage.CoverageComplete | src/utils/intersection.py:95-117 | taking ends first and with no user's intervals overlapping, every stretch between consecutive timeline times that is long enough and has some user free for all of it is reported, with that number of users |
| CoverageFinding.SortedUnique | src/utils/intersection.py:95 | a strictly sorted list and a sorted list with the same elements are equal |
| CoverageFinding.HeadsEqual | src/utils/intersection.py:95 | case of `SortedUnique`: the two lists have the same first element |
| CoverageFinding.TailsAgree | src/utils/intersection.py:95 | case of `SortedUnique`: removing the shared first element leaves equal multisets |
| CoverageFinding.SortedTimelineIs | src/utils/intersection.py:95 | a strictly sorted arrangement of a timeline's points is its sorted timeline |
| CoverageFinding.DayTimeline | src/utils/intersection.py:80-90 | the unsorted timeline of the four-point example day |
| CoverageFinding.AsWrittenTimeline | src/utils/intersection.py:95 | with the key as written, the start at 10:00 sorts before the end at 10:00 |
| CoverageFinding.AsIntendedTimeline | src/utils/intersection.py:95 | with ends first, the end at 10:00 sorts before the start |
| CoverageFinding.AsWrittenActive | src/utils/intersection.py:114-117 | as written, the user has left the active set when the 10:00-11:00 stretch ends |
| CoverageFinding.AsIntendedActive | src/utils/intersection.py:114-117 | with ends first, the user is still active then |
| CoverageFinding.AsWrittenCoverage | src/utils/intersection.py:66-119 | as written, the example day yields only the 9:00-10:00 block |
| CoverageFinding.AsIntendedCoverage | src/utils/intersection.py:66-119 | with ends first, it yields both hours |
| CoverageFinding.DaySupporters | src/utils/intersection.py:66-119 | on the example day, user 1 is free 10:00-11:00 |
| CoverageFinding.StartsFirstLosesHour | src/utils/intersection.py:95 | a day satisfying `CoverageComplete`'s hypothesis where the key as written reports nothing after 10:00, although user 1 is free 10:00-11:00 |
| CoverageFinding.EndsFirstKeepsHour | src/utils/intersection.py:95 | with ends first the same day reports 10:00-11:00 |
| CoverageFinding.RecordsDay | src/utils/intersection.py:45-49 | the two records of the example are filed under their date as the example day, and nothing is filed under any other key |
| CoverageFinding.RecordsCollected | src/utils/intersection.py:51-57 | before sorting, the calculation holds the date's blocks and nothing else |
| CoverageFinding.OneDayOrderable | src/utils/intersection.py:61 | the blocks of a single day never make the sort fail |
| CoverageFinding.RecordsOk | src/utils/intersection.py:41-63 | the calculation succeeds on the example records with either tie-break |
| CoverageFinding.RecordsResult | src/utils/intersection.py:41-63 | its entries are exactly the date's blocks that the sweep finds for the example day |
| CoverageFinding.DriverLosesHour | src/utils/intersection.py:95 | `calculate_common_slots` as written returns nothing ending after 10:00 for one participant free 9:00-11:00 in two records, for a one-hour event |
| CoverageFinding.DriverKeepsHour | src/utils/intersection.py:95 | the corrected calculation returns the 10:00-11:00 entry for them |
| FullIntersection.Overlap | src/utils/intersection.py:185-188 | the `max`/`min` overlap of two ranges holds exactly the minutes in both, and lies inside each when it is non-empty |
| FullIntersection.IntersectTwoSlotLists | src/utils/intersection.py:163-199 | every piece is non-empty and lies inside a range of each list, and covers only minutes both lists cover; when both lists are sorted and non-overlapping, so is the result, and it covers exactly the minutes common to both. The `decreases` proves termination: each step advances `i`, `j` or both |
| FullIntersection.MergeStepKeepsOrder | src/utils/intersection.py:188-197 | one merge step keeps the result ordered and ending before what is left of either list |
| FullIntersection.MergeStepKeepsCover | src/utils/intersection.py:188-197 | one merge step loses no minute common to both lists |
| FullIntersection.MergeStepKeepsMinute | src/utils/intersection.py:188-197 | case of `MergeStepKeepsCover` for one minute |
| FullIntersection.UsersInOrderDistinct | src/utils/intersection.py:138 | `list(slots_by_user.keys())` lists each distinct user id once, so its length is the number of distinct ids |
| FullIntersection.DistinctCard | src/utils/intersection.py:139 | a duplicate-free list of a set's elements has the set's size |
| FullIntersection.RangesOfCovers | src/utils/intersection.py:134-136 | a range inside one of a user's pairs is inside one of that user's intervals |
| FullIntersection.GroupByUser | src/utils/intersection.py:134-138 | the grouping loop files each user's `(start, end)` pairs under their id in input order, with keys in first-seen order |
| FullIntersection.GroupStep | src/utils/intersection.py:135-136 | one grouping step keeps the dictionary and its key order in step with the intervals seen |
| FullIntersection.RangesSnoc | src/utils/intersection.py:136 | one more interval extends exactly its own user's list |
| FullIntersection.WithinSomeTrans | src/utils/intersection.py:149 | containment in some range passes through a chain of lists |
| FullIntersection.WithinSomeRefl | src/utils/intersection.py:145 | a list lies within itself |
| FullIntersection.FoldStep | src/utils/intersection.py:149 | after merging with the next user, the common ranges lie inside every earlier user's ranges |
| FullIntersection.FoldCoverStep | src/utils/intersection.py:149 | after merging with the next user, the common ranges hold exactly the minutes common to the users so far |
| FullIntersection.FoldCommonRanges | src/utils/intersection.py:145-151 | the fold, with its early `break`, leaves ranges inside every user's ranges; when each user's list is sorted and non-overlapping, they are too, and they hold exactly the minutes free for every user |
| FullIntersection.FilterByDuration | src/utils/intersection.py:153-158 | the result is `LongEnough` of the common ranges: each range at least the required length, in input order and once per occurrence, counted with the number of users; every block comes from a range and every long-enough range gives a block; sorted, non-overlapping ranges give sorted, non-overlapping blocks |
| FullIntersection.LongEnoughMember | src/utils/intersection.py:155-158 | a block is kept exactly when it is one of the ranges, long enough, with the participant count |
| FullIntersection.LongEnoughOrdered | src/utils/intersection.py:155-158 | filtering sorted, non-overlapping ranges keeps them sorted and non-overlapping |
| FullIntersection.FindFullIntersectionForDay | src/utils/intersection.py:122-160 | `IndexError` exactly when the day is empty and zero participants are expected; `[]` unless the distinct user count equals `total_participants`; every slot counts that many, is long enough, and lies in an interval of every user of the day; when each user's intervals are sorted and non-overlapping, the slots are too |
| CommonSlots.DayKeyOf | src/utils/intersection.py:48 | a one-off event files a record under its date or under `None`, never a weekday; a recurring one under its weekday or `None`, never a date; a date or weekday key is the record's own |
| CommonSlots.SortKeyOf | src/utils/intersection.py:61 | dates keep their value and sort as dates; weekdays 1 to 6 keep their number; `None` and weekday 0 both become 999 |
| CommonSlots.Unorderable | src/utils/intersection.py:61 | the sort fails only on at least two entries, and when it does not, all entries are dated or none is |
| CommonSlots.SlotLeIsTotalPreorder | src/utils/intersection.py:61 | the key `(day key, start)` is a total preorder |
| CommonSlots.CalculateCommonSlots | src/utils/intersection.py:16-63 | with either tie-break (the code is `StartsFirst`), the method returns what `CommonSlotsOf` prescribes: `ValueError` for a missing event, `[]` without records, `TypeError` on mixed keys, otherwise the sorted blocks of every day |
| CommonSlots.AppendDay | src/utils/intersection.py:56-57 | the inner loop appends one tagged entry per block of the day |
| CommonSlots.GroupByDay | src/utils/intersection.py:45-49 | the grouping loop files each record's `(start, end, user_id)` under its day key (the date for a one-off event, the weekday for a recurring one) in input order, keys in first-seen order |
| CommonSlots.GroupDayStep | src/utils/intersection.py:47-49 | one grouping step keeps the dictionary and its key order in step with the records seen |
| CommonSlots.DaySlotsSnoc | src/utils/intersection.py:49 | one more record extends exactly its own day's list |
| CommonSlots.CollectedSnoc | src/utils/intersection.py:52-57 | one more day appends exactly that day's tagged blocks |
| CommonSlots.TaggedMember | src/utils/intersection.py:56-57 | an entry is among a day's tagged blocks exactly when it has that day and its block is one of the day's |
| CommonSlots.CollectedMember | src/utils/intersection.py:52-57 | an entry is collected exactly when its day is a key and the sweep of that day's records alone finds its block, so days are never combined |
| CommonSlots.DayKeysMember | src/utils/intersection.py:45-49 | a day is a key exactly when some record is filed under it |
| CommonSlots.CoverageOfNone | src/utils/intersection.py:92-93 | a day with no intervals yields no blocks |
| CommonSlots.CommonSlotsMembership | src/utils/intersection.py:41-63 | a successful result holds an entry exactly when the sweep of its own day's records finds its block |
| CommonSlots.SortedMember | src/utils/intersection.py:61 | sorting keeps exactly the entries it is given |
| CommonSlots.CommonSlotsSorted | src/utils/intersection.py:61 | a successful result is sorted by `(day key, start)` |
| CommonSlots.CommonSlotsSupported | src/utils/intersection.py:52-57 | every entry has start < end, lasts at least the event's duration, and counts between one and the number of that day's users whose interval contains it |
| CommonSlots.CommonSlotsExact | src/utils/intersection.py:95 | the corrected calculation, which sweeps with ends first: on a day where no user's intervals overlap, each entry counts exactly the users whose interval contains it |
| CommonSlots.RecurringIsOrderable | src/utils/intersection.py:61 | a recurring event's keys are all numbers, so its calculation never raises `TypeError` |
| CommonSlots.OneOffUnorderable | src/utils/intersection.py:61 | a one-off event raises `TypeError` exactly when blocks are found both on some dated day and among the records without a date |
| CommonSlots.UnorderableHasBoth | src/utils/intersection.py:61 | one direction of `OneOffUnorderable` |
| CommonSlots.BothAreUnorderable | src/utils/intersection.py:61 | the other direction of `OneOffUnorderable` |
| CommonSlots.DayHasSlot | src/utils/intersection.py:56-57 | a day whose sweep finds a block contributes an entry |
| CommonSlots.MondaySortsAfterSunday | src/utils/intersection.py:61 | `x[0] or 999` sorts weekday 0 (Monday) after weekday 6 (Sunday) |
| Text.Span | src/handlers/events.py:32 | the longest run of a character class at the front of a string |
| Text.TrailingSpaces | src/handlers/events.py:33 | the longest run of whitespace at the end |
| Text.Strip | src/handlers/events.py:33 | `strip()` gives the middle of the string, with no whitespace at either end and only whitespace removed |
| Text.StripUnchanged | src/handlers/events.py:69 | text without whitespace at its ends is its own `strip()` |
| Text.IsSpace | src/handlers/events.py:32-38 | no digit and none of the letters and signs the pattern spells out (`"`, `@`, `-`, `.`, `h`, `m`, `r`) is whitespace |
| Text.Split | src/handlers/events.py:38 | every token of `split()` is non-empty and free of whitespace |
| Text.SplitChars | src/handlers/events.py:66 | every character of a token is a character of the text |
| Text.SplitAfterSpaces | src/handlers/events.py:38 | leading whitespace does not change `split()` |
| Text.SplitToken | src/handlers/events.py:66 | a word followed by whitespace is the first token |
| Text.SplitLast | src/handlers/events.py:66 | a lone word is the only token |
| Text.SpanExact | src/handlers/events.py:32 | a run of a class followed by a character outside it spans exactly the run |
| Text.SplitJoin | src/handlers/events.py:66 | `split()` of words joined by single spaces gives the words back |
| Text.JoinStep | src/handlers/events.py:66 | one more word in front of a join is one more token in front of its split |
| Text.LstripChar | src/handlers/events.py:66 | `lstrip(c)` removes exactly the leading copies of `c` and leaves a string that does not start with `c` |
| Text.DigitsValue | src/handlers/events.py:46 | `int` of `n` digits is below 10^n |
| Text.DigitChar | src/handlers/events.py:46 | the digit of a value below ten reads back as that value |
| Text.Decimal | src/handlers/events.py:46 | `str(n)` is a non-empty digit string |
| Text.DecimalValue | src/handlers/events.py:46 | `int(str(n)) == n` |
| Text.Padded | src/handlers/events.py:59 | a zero-padded number has exactly the requested number of digits |
| Text.PaddedValue | src/handlers/events.py:59 | a zero-padded number that fits reads back as itself |
| Text.JoinLast | src/handlers/events.py:64-66 | a join ends with the last character of its last word |
| Text.JoinAvoids | src/handlers/events.py:64-66 | a join holds no character, other than the space, that none of its words holds |
| Text.JoinFirst | src/handlers/events.py:64-66 | a join starts with the first character of its first word |
| EventCommand.UnitPart | src/handlers/events.py:32 | `(?:\d+u)?` takes a non-empty digit run and the unit letter when they are there, and nothing otherwise |
| EventCommand.DatePart | src/handlers/events.py:32 | `(\d{2}\.\d{2}\.\d{4})?` takes ten characters of that shape when they are there, and nothing otherwise |
| EventCommand.MatchCommand | src/handlers/events.py:32-36 | a match has a non-empty title without `"`, digit-only hours and minutes parts, a date of the right shape, and a tail without a line feed |
| EventCommand.SearchUnit | src/handlers/events.py:44-49 | `re.search(r'(\d+)u')` is `None` exactly when no run of digits is followed by `u`, and otherwise reads the digits of the leftmost such run |
| EventCommand.SearchFrom | src/handlers/events.py:44-49 | the same search over the positions from `i` on |
| EventCommand.DateOf | src/handlers/events.py:57-61 | `strptime('%d.%m.%Y')` succeeds only on a valid calendar date |
| EventCommand.AtNames | src/handlers/events.py:66 | at most one name per token, none starting with `@` |
| EventCommand.ParseEventCommand | src/handlers/events.py:20-74 | the method returns `ParseCommand(text)`: `None` unless the stripped text matches, otherwise the command its groups give |
| EventCommand.CommandOfGroups | src/handlers/events.py:38-74 | after a match: `None` for a zero duration or an impossible date; otherwise the stripped title, the duration, the `-r` token test, the date and the `@` names |
| EventCommand.Usernames | src/handlers/events.py:64-66 | no names for an empty remainder, otherwise the names of its `@` tokens |
| EventCommand.DurationMinutes | src/handlers/events.py:41-50 | the two conditional searches add up to 60 times the hours plus the minutes, either part absent counting zero |
| EventCommand.DurationSearch | src/handlers/events.py:43-50 | in a matched duration group, the letter test holds exactly when its part is present, and the search finds that part's digits |
| EventCommand.HoursSearch | src/handlers/events.py:43-46 | the hours half of `DurationSearch` |
| EventCommand.MinutesSearch | src/handlers/events.py:47-50 | the minutes half of `DurationSearch` |
| EventCommand.MinutesAfterHours | src/handlers/events.py:48 | the `(\d+)m` search in `<h>h<m>m` finds the minutes digits |
| EventCommand.FoundHere | src/handlers/events.py:44-49 | digits followed by the unit letter are a match, and the run read there is those digits |
| EventCommand.FoundAt | src/handlers/events.py:44-49 | a search succeeds at once on digits followed by the unit letter |
| EventCommand.FoundLater | src/handlers/events.py:48-49 | a search from a position finds the digits and unit letter there |
| EventCommand.SkipHours | src/handlers/events.py:48-49 | the `(\d+)m` search passes over the hours digits and their `h` |
| EventCommand.HoursNoMinutes | src/handlers/events.py:48 | no `(\d+)m` match starts inside the hours digits or at their `h` |
| EventCommand.SearchSkips | src/handlers/events.py:48 | where the pattern does not match, the search moves on to the next position |
| EventCommand.AtNamesMeaning | src/handlers/events.py:64-66 | each `@` token gives a name, with every leading `@` removed |
| EventCommand.AtNamesExact | src/handlers/events.py:66 | the names are read off exactly the `@` tokens, one each, at ascending positions, with every leading `@` removed |
| EventCommand.AtNamesAppend | src/handlers/events.py:66 | the names of two token lists one after the other are the first list's names followed by the second's |
| EventCommand.AtShift | src/handlers/events.py:66 | the names of the tokens after the first sit at positions one further on among all the tokens |
| EventCommand.ShiftPicks | src/handlers/events.py:66 | a shifted position picks the same token and name |
| EventCommand.ShiftHits | src/handlers/events.py:66 | every `@` token after the first is at a shifted position |
| EventCommand.AtCons | src/handlers/events.py:66 | a first token that starts with `@` puts its name in front, at position 0 |
| EventCommand.ConsPicks | src/handlers/events.py:66 | the first token's name in front keeps every other name at its token |
| EventCommand.ConsOrdered | src/handlers/events.py:66 | position 0 in front of ascending positions keeps them ascending |
| EventCommand.TailNames | src/handlers/events.py:64-66 | the names of the parse are exactly those of the tail's `@` tokens, in token order, with none for an empty tail |
| EventCommand.TitleNoQuote | src/handlers/events.py:69 | the stripped title still holds no `"` |
| EventCommand.GroupsFields | src/handlers/events.py:38-74 | case of `ParsedFields` once the pattern has matched |
| EventCommand.ParsedFields | src/handlers/events.py:20-74 | any accepted command has a positive duration, a stripped title without `"`, the flag exactly when `-r` is a whitespace token of the text, a valid date when one is given, and as names exactly those of the tail's `@` tokens, in token order, with their leading `@` removed and none starting with `@` |
| EventCommand.DateDigits | src/handlers/events.py:59 | a written `DD.MM.YYYY` has the date shape the pattern looks for |
| EventCommand.Mentions | src/handlers/events.py:66 | one `@name` token per name |
| EventCommand.ParseRender | src/handlers/events.py:20-74 | reading a written command `[-r ]"title" <h>h<m>m[ DD.MM.YYYY][ @user ...]` back gives its title, 60·h + m minutes, its flag, its date and its names; a zero duration (such as `0h`) or an impossible date gives `None` |
| EventCommand.RenderStripped | src/handlers/events.py:33 | a written command is its own `strip()` |
| EventCommand.RenderLast | src/handlers/events.py:33 | a written command ends in a non-space character |
| EventCommand.RestLast | src/handlers/events.py:33 | the part after the title ends in a non-space character |
| EventCommand.UsersLast | src/handlers/events.py:33 | the names part ends in a non-space character |
| EventCommand.NoUsersLast | src/handlers/events.py:33 | without names, the date or duration ends the command |
| EventCommand.DurationLast | src/handlers/events.py:33 | the duration part ends in its unit letter |
| EventCommand.LastOf | src/handlers/events.py:33 | the last character of a concatenation is that of its last non-empty part |
| EventCommand.AfterFlagRender | src/handlers/events.py:32 | `(?:-r\s+)?` takes exactly the written flag |
| EventCommand.QuoteStep | src/handlers/events.py:32 | `"([^"]+)"` takes exactly the written title and leaves the rest of the command |
| EventCommand.DurationFirst | src/handlers/events.py:32 | the written duration starts with a digit |
| EventCommand.RestStep | src/handlers/events.py:32 | `\s+` after the title takes exactly the single written space and leaves the duration, date and names |
| EventCommand.UnitPartAt | src/handlers/events.py:32 | `(?:\d+u)?` on digits followed by a non-digit takes the digits and that letter when the letter is `u`, and nothing otherwise |
| EventCommand.DurationStep | src/handlers/events.py:32 | the hours and minutes parts of the duration group take exactly the written digits and leave what follows |
| EventCommand.DateStep | src/handlers/events.py:32 | `\s*`, the date group and `\s*` again take exactly the written date, if any, and leave the tail group |
| EventCommand.DateThenNames | src/handlers/events.py:32 | a space and a date in front of the names: the date group takes the date and leaves the names |
| EventCommand.MentionsStart | src/handlers/events.py:32 | `\s*` before the names leaves exactly the tail group, which is empty or starts with `@` (so it is never read as a date) |
| EventCommand.MentionsAvoid | src/handlers/events.py:32 | a character other than a space or `@` that no name holds is not in the joined `@name` tokens |
| EventCommand.TailNoNewline | src/handlers/events.py:32 | the tail of a written command has no line feed, so `(.*)$` takes it all |
| EventCommand.MatchRender | src/handlers/events.py:32-36 | the pattern matches a written command with its title, digit strings, date and names as groups |
| EventCommand.MatchOfParts | src/handlers/events.py:32-36 | the match is assembled from the pieces each part of the pattern takes |
| EventCommand.GroupsMeaning | src/handlers/events.py:38-74 | groups that read back as the request's parts give the expected command |
| EventCommand.DurationBack | src/handlers/events.py:41-50 | the written duration's digits read back as 60·h + m |
| EventCommand.DateBack | src/handlers/events.py:57-61 | the written date reads back as itself when valid and is refused otherwise |
| EventCommand.NamesBack | src/handlers/events.py:64-66 | the written `@` tokens read back as the names |
| EventCommand.DateDigitsValue | src/handlers/events.py:59 | `strptime` on a written date reads back its day, month and year, or fails when they are not a date |
| EventCommand.MentionsAreWords | src/handlers/events.py:66 | every `@name` token is a non-empty word |
| EventCommand.AtNamesMentions | src/handlers/events.py:66 | keeping the `@` tokens and stripping their `@` gives the names back |
| EventCommand.MentionBack | src/handlers/events.py:66 | `("@" + u).lstrip('@') == u` for a name not starting with `@` |
| EventCommand.RecurringToken | src/handlers/events.py:38 | `-r` is a token of a written command exactly when it is written as recurring |
| EventCommand.NoDashInBody | src/handlers/events.py:38 | the written command after the flag holds no `-` |
| EventCommand.MothershipExample | src/handlers/events.py:25 | `"Mothership: Session 3" 3h30m 16.02.2026 @blimmsky @kosmovar` is 210 minutes, one-off, on 16 February 2026, for `blimmsky` and `kosmovar` |
| EventCommand.MothershipWellFormed | src/handlers/events.py:25 | the Mothership command satisfies `WellFormed` |
| EventCommand.MothershipTitle | src/handlers/events.py:25 | the Mothership title satisfies the title conditions of `WellFormed` |
| EventCommand.MothershipUsers | src/handlers/events.py:25 | the Mothership names are valid names |
| EventCommand.MothershipRendered | src/handlers/events.py:25 | the Mothership command written out is the documented text |
| EventCommand.MothershipDuration | src/handlers/events.py:25 | its duration is written `3h30m` |
| EventCommand.MothershipDate | src/handlers/events.py:25 | its date is written ` 16.02.2026` |
| EventCommand.MothershipNames | src/handlers/events.py:25 | its names are written ` @blimmsky @kosmovar` |
| EventCommand.MothershipPieces | src/handlers/events.py:25 | the pieces of the Mothership text concatenate as documented |
| EventCommand.PaddedDigits | src/handlers/events.py:25 | 16, 2 and 2026 are written `16`, `02` and `2026` |
| EventCommand.MonsterHeartsExample | src/handlers/events.py:26 | `-r "Monster Hearts" 4h @nickus83 @chilovar` is 240 minutes, recurring, with no date, for `nickus83` and `chilovar` |
| EventCommand.MonsterHeartsWellFormed | src/handlers/events.py:26 | the Monster Hearts command satisfies `WellFormed` |
| EventCommand.MonsterHeartsTitle | src/handlers/events.py:26 | the Monster Hearts title satisfies the title conditions of `WellFormed` |
| EventCommand.MonsterHeartsUsers | src/handlers/events.py:26 | the Monster Hearts names are valid names |
| EventCommand.MonsterHeartsRendered | src/handlers/events.py:26 | the Monster Hearts command written out is the documented text |
| EventCommand.MonsterHeartsPieces | src/handlers/events.py:26 | the pieces of the Monster Hearts text concatenate as documented |
| EventCommand.RenderPieces | src/handlers/events.py:24-26 | a written command is its flag, quoted title, duration, date and names in that order |
| EventCommand.TwoMentions | src/handlers/events.py:24-26 | two names are written ` @a @b` |
| EventCommand.CommandNameRefused | src/handlers/events.py:32-36 | text still starting with `/event ` does not match, so it gives `None` |

## Left out

- The database and `async` plumbing of `calculate_common_slots` (`session.get`, `select`, `execute`). These reads are I/O. Their results are the `event` and `avs` inputs.
- `cmd_newevent`, `register_event_handlers` and the other Telegram handlers, keyboards, the scheduler stub and the bot's start-up. They are I/O and UI, not core logic.
- The regular-expression engine and `strptime` as libraries. They are replaced by the recogniser `MatchCommand` and the check `Calendar.IsValidDate`.
- `\d` outside ASCII. `\d` is modelled as the ASCII digits only. Python's `\d` also matches other Unicode decimal digits, and `int` accepts them. `str.isspace` is modelled with its full set of characters.
- Seconds and microseconds of `time` values. The model works in whole minutes. The sweep and the merge compute with `timedelta(hours=h, minutes=m)`, which drops them as the model does. With a single user, `_find_full_intersection_for_day` returns that user's own `time` values unchanged, seconds included; only its duration test drops them. The model returns them in whole minutes.
- The full-intersection pass is modelled on its own. The code shown never calls it.
- FullIntersection.FindFullIntersectionForDay: does not restate past the duration filter that every minute free for all users lies in a result slot. That completeness is stated on `FoldCommonRanges` and `FilterByDuration`.
- FullIntersection.IntersectTwoSlotLists: says each piece lies inside some range of each list, not which pair of ranges produced it.
- Coverage.Skipped: with ends first, zero-length intervals are skipped as well as overnight ones. Otherwise their end would sort before their start and leave the user active. This is part of the correction below.
- CommonSlots.CommonSlotsExact: stated for the corrected calculation only. With the key as written it fails (`CoverageFinding.DriverLosesHour`).

## Findings

| source | as written | input that shows it | evidently intended | confidence | as-written member | corrected member |
|---|---|---|---|---|---|---|
| src/utils/intersection.py:95 | the key `(x[0], -x[1])` puts a start (type 1, key −1) before an end (type −1, key 1) at the same time, although the comment on the line says ends come first; so when one user's interval ends where their next one starts, the start is processed first, the end then removes the user from the active set, and the rest of the second interval is lost | one user (id 1) free 9:00–10:00 and 10:00–11:00 on one date, one-off event of 60 minutes: only 9:00–10:00 is reported | ends sort before starts at equal times, so every stretch someone is free for is reported, counting exactly the users free for it (zero-length intervals are then skipped too) | not executed | CoverageFinding.DriverLosesHour | Coverage.CoverageComplete |

`CoverageFinding.StartsFirstLosesHour` shows the loss for the day's sweep alone, and `CoverageFinding.DriverLosesHour` for `calculate_common_slots` as written, which is `CommonSlots.CalculateCommonSlots` with `StartsFirst`. With ends first, `Coverage.CoverageComplete` and `Coverage.CoverageExact` hold whenever no user's intervals overlap. `CommonSlots.CommonSlotsExact` lifts the latter to the corrected calculation, and `CoverageFinding.DriverKeepsHour` shows that the example is then reported in full.
