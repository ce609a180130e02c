# Problem-sheet progress tracker: a Dafny model

The tracker is a single-page problem sheet: a twelve-week catalog of algorithm
exercises. The user ticks problems off, writes notes about them, searches and
filters the list, and sees statistics. Its logic lives inside one React
component, `ProblemList` in `src/components/ProblemList.tsx`. This project
models the pure data layer of that component as immutable datatypes and total
functions over sequences and maps, and proves what those functions promise:

- **Progress store** (`progress.dfy`). The list of `Problem` records
  (`types.dfy`, after `src/interfaces/Types.ts`).
  - Seeding from the catalog.
  - Restoring from a stored snapshot, and the guard that never writes an
    empty list back.
  - `toggleProblemCompletion`: its shape, its effect, the invariant
    "a completion date exists exactly for completed items", and toggling
    twice.
- **Notes store** (`notes.dfy`). `updateNotes` as a map update, and the
  text area's `notes[title] || ""` reading.
- **Statistics** (`stats.dfy`). `getStats`:
  - the counts, in total and per difficulty;
  - the rounded percentage;
  - the streak loop. It is a tail-recursive function that carries the loop
    invariant. It is proved to return the length of the longest block of
    neighbouring days exactly one day apart, and 1 when there is no day.
- **Views** (`view.dfy`).
  - `filteredProblems`: the status/difficulty drop-down and the
    case-insensitive search.
  - `problemsByDay`: the week restriction and the `reduce` that groups by
    day.
  - `weeks`: the week options.
  - The LeetCode slug.
- **Support**.
  - `queries.dfy`: the per-item tests handed to `Array.prototype.filter`,
    as a `Query` datatype, with `Select` = `.filter` and its laws.
  - `collections.dfy`: subsequences, and the insertion-order
    de-duplication of a JavaScript `Set`.
  - `text.dfy`: ASCII lower-casing, `includes`, and the string order plus
    sort behind `Array.prototype.sort()`.

Behaviour of the code worth knowing, all modelled and proved:

- **Streak with no completions.** With no completion at all the streak loop
  reports **1**, not 0 (`Stats.NoCompletionsStreakIsOne`). The loop starts
  its current run at 1 before looking at any date.
- **Streak date order.** The distinct completion dates are sorted as
  `toDateString()` strings. Those strings begin with the weekday, so the
  loop walks the days in weekday-name order, not calendar order. Thursday 9,
  Friday 10 and Saturday 11 January sort as Fri, Sat, Thu, and the streak
  comes out as 2 instead of 3 (`Stats.WeekdayOrderInGetStats`).
  Because the loop compares absolute differences, two adjacent days still
  count in either order.
- **Toggling an unknown title.** The list comes back unchanged
  (`Progress.ToggleUnknownTitle`). The source's `map` still builds a new
  array, so the storage effect fires again, but it writes the same content.
- **Persistence guard.** The progress write is skipped while the list is
  empty. So the empty list a fresh mount starts with never overwrites a
  stored snapshot (`Progress.EmptyListKeepsSnapshot`).
- **Malformed snapshot.** A malformed stored snapshot does not fall back to
  the seed: `JSON.parse` would throw. The model takes the snapshot already
  parsed, or absent.

## Model

| member | source | states |
|---|---|---|
| Progress.Seed | src/components/ProblemList.tsx:48-52 | the seeded list has one entry per catalog item, in catalog order, with every catalog field kept, nothing completed and no date, so the date invariant holds |
| Progress.Initialize | src/components/ProblemList.tsx:41-54 | a stored snapshot is shown as it is; with none, the list has one entry per catalog item with its catalog fields, nothing completed, and the date invariant holds |
| Progress.PersistProgress | src/components/ProblemList.tsx:61-65 | a non-empty list is written; otherwise the entry keeps what it held, so a write never replaces the entry by an empty list |
| Progress.FirstRunIsSeed | src/components/ProblemList.tsx:45-54 | with nothing stored, mounting yields the seeded catalog: same length, same entries, nothing completed, invariant established |
| Progress.PersistThenReload | src/components/ProblemList.tsx:45-46 | writing a non-empty list and mounting again restores exactly that list |
| Progress.EmptyListKeepsSnapshot | src/components/ProblemList.tsx:61-65 | an empty list is never written, so the stored snapshot and what the next mount shows are unchanged |
| Progress.Toggle | src/components/ProblemList.tsx:71-85 | same length and order; items with another title are unchanged; a matching item keeps its catalog fields, flips `completed`, and carries a date exactly when it is now completed, that date being the current time |
| Progress.ToggleUnknownTitle | src/components/ProblemList.tsx:72-83 | toggling a title no item has returns the list unchanged |
| Progress.TogglePreservesDates | src/components/ProblemList.tsx:74-81 | if every item has a date exactly when completed, that still holds after a toggle |
| Progress.ToggleTwice | src/components/ProblemList.tsx:74-81 | toggling one title twice restores every `completed` flag; pending items are restored entirely; completed matching items come back completed with the second toggle's timestamp |
| Notes.UpdateNotes | src/components/ProblemList.tsx:87-92 | the title maps to the new text, every other key keeps its value, and the key set grows by exactly that title |
| Notes.InitialNotes | src/components/ProblemList.tsx:56-58 | the stored notes when there are any, otherwise the empty `{}` the state starts with |
| Notes.NoteText | src/components/ProblemList.tsx:578 | a present note reads as its text; the text area is blank exactly when the title has no note or an empty one |
| Notes.MountedNotesRead | src/components/ProblemList.tsx:56-58 | after mounting each text area shows the stored note of its title, and is blank when nothing was stored for it |
| Notes.UpdateThenRead | src/components/ProblemList.tsx:578-581 | after an update the text area of that title shows the new text, and every other title shows what it showed before |
| Notes.LastUpdateWins | src/components/ProblemList.tsx:88-91 | of two updates to one title, the later text is what remains |
| Notes.EmptyNoteReadsAsMissing | src/components/ProblemList.tsx:578 | clearing a note keeps its key, but the text area reads it like a missing note |
| Queries.MatchesFilter | src/components/ProblemList.tsx:159-163 | the drop-down test holds exactly for "all", for "completed" on completed items, for "pending" on pending ones, and for "easy", "medium" or "hard" on items of that difficulty |
| Queries.LowerDifficultyNames | src/components/ProblemList.tsx:163 | the lower-cased difficulty names are "easy", "medium" and "hard" |
| Queries.MatchesSearch | src/components/ProblemList.tsx:165-168 | the search test holds exactly when the lower-cased term occurs at some position of the lower-cased title, theme or technique |
| Queries.Select | src/components/ProblemList.tsx:109-121 | a filter's result is a subsequence of the list, every kept item passes, and every passing item is kept |
| Queries.SelectCountsPositions | src/components/ProblemList.tsx:109 | the length of a filtered list equals the number of positions whose item passes the test |
| Queries.SelectKeepsAll | src/components/ProblemList.tsx:158-171 | a test every item passes keeps the whole list unchanged |
| Queries.SelectTwice | src/components/ProblemList.tsx:176-177 | filtering by one test and then another equals filtering once by their conjunction |
| Queries.SelectMonotone | src/components/ProblemList.tsx:113-121 | a stricter test keeps no more items than a looser one |
| Queries.DifficultiesPartition | src/components/ProblemList.tsx:110-112 | the Easy, Medium and Hard counts add up to the list's length |
| Stats.Percent | src/components/ProblemList.tsx:150 | 0 for an empty list; otherwise the integer within half a unit of 100·completed/total, halves rounded up; never above 100 when completed ≤ total |
| Stats.PercentBounds | src/components/ProblemList.tsx:150 | the integer quotient used for rounding satisfies the nearest-integer bounds and the 100 cap |
| Stats.StreakLoop | src/components/ProblemList.tsx:132-145 | from a state meeting the loop invariant, the loop returns a value ≥ 1 that bounds every block of neighbours one day apart and is the length of such a block, or 1 when there are no days |
| Stats.StreakDone | src/components/ProblemList.tsx:144 | when the loop ends, the larger of the closed and the current block is the longest block |
| Stats.StreakExtend | src/components/ProblemList.tsx:137-139 | a neighbour one day from the previous one extends the current block and keeps the invariant |
| Stats.StreakBreak | src/components/ProblemList.tsx:140-143 | any other gap closes the current block, starts a block of one, and keeps the invariant |
| Stats.Streak | src/components/ProblemList.tsx:129-145 | the streak is between 1 and max(1, number of days); it is the longest block of neighbours exactly one day apart, and 1 for no days |
| Stats.NoDaysStreakIsOne | src/components/ProblemList.tsx:129-130 | an empty day sequence yields streak 1 |
| Stats.GapBreaksStreak | src/components/ProblemList.tsx:132-145 | days 1, 2, 3, 5 yield streak 3 |
| Stats.WeekdayLabelsSortOutOfOrder | src/components/ProblemList.tsx:125-127 | the labels of three consecutive dates, Thu 9, Fri 10 and Sat 11 January, sort as Fri, Sat, Thu |
| Stats.WeekdayOrderShortensStreak | src/components/ProblemList.tsx:127-145 | walking those days in sorted-label order (10, 11, 9) gives a streak of 2, where calendar order (9, 10, 11) gives 3 |
| Stats.ThreeDaysStreakDays | src/components/ProblemList.tsx:123-134 | for three problems completed on 9, 10 and 11 January 2025 the loop walks the days 10, 11, 9 |
| Stats.WeekdayOrderInGetStats | src/components/ProblemList.tsx:107-156 | `getStats` on those three problems reports a streak of 2, where the days in calendar order form a streak of 3 |
| Stats.CompletionLabels | src/components/ProblemList.tsx:123-125 | label i is the date label of the timestamp of the i-th completed item that has a non-empty date, one label per such item |
| Stats.UniqueSortedLabels | src/components/ProblemList.tsx:127 | the labels once each, in ascending string order: sorted, free of repeats, every label present and nothing else |
| Stats.StreakDays | src/components/ProblemList.tsx:127-134 | day i is the day number of the i-th of the sorted distinct labels; at most one day per dated completion |
| Stats.GetStats | src/components/ProblemList.tsx:107-156 | total is the list length; completed is the number of completed positions and ≤ total; each difficulty's bucket counts the positions of that difficulty and of that difficulty and completed, and the three totals sum to total; progress is 0 for an empty list, otherwise the integer within half a unit of 100·completed/total, and ≤ 100; streak is the streak of the walked days, between 1 and max(1, completed) |
| Stats.BucketCompletedWithinTotal | src/components/ProblemList.tsx:113-121 | a difficulty's completed count never exceeds its total |
| Stats.DatedCompletionsAreCompletions | src/components/ProblemList.tsx:124-125 | dated completions are no more than the completions |
| Stats.NoCompletionsStreakIsOne | src/components/ProblemList.tsx:124-145 | with nothing completed, stats report 0 completed but a streak of 1 |
| View.FilteredProblems | src/components/ProblemList.tsx:158-171 | the shown list is a subsequence of the problems; each shown item matches both the drop-down and the search; each matching problem is shown, and the length is the number of matching positions, so duplicates are kept |
| View.AllWithEmptySearchShowsEverything | src/components/ProblemList.tsx:159-168 | filter "all" with an empty search shows the whole list unchanged |
| View.SearchIgnoresCase | src/components/ProblemList.tsx:165-168 | lower-casing the search text does not change the result |
| View.AddToGroupEffect | src/components/ProblemList.tsx:178-185 | one reduce step appends the item to its day's group, leaves the other groups alone, and opens a new last group only for an unseen day |
| View.GroupByDay | src/components/ProblemList.tsx:176-185 | one group per distinct day, in order of first appearance; each group holds exactly the items of its day, in list order |
| View.GroupStep | src/components/ProblemList.tsx:178-184 | one reduce step preserves the grouping invariant |
| View.GroupsNonEmpty | src/components/ProblemList.tsx:180-183 | no group is empty |
| View.ProblemsByDay | src/components/ProblemList.tsx:176-185 | the groups' days are the active week's distinct days, in first-appearance order; the group of day d holds exactly the filtered items with week = active week and day = d, in list order, and is non-empty |
| View.NoResultsIffWeekEmpty | src/components/ProblemList.tsx:634 | "No problems found" shows exactly when no filtered problem is in the active week |
| View.Weeks | src/components/ProblemList.tsx:186 | each week present in the list appears exactly once, nothing else appears, and weeks are ordered by first appearance |
| View.WeeksCoverFilteredProblems | src/components/ProblemList.tsx:186 | every filtered problem's week is among the week options |
| View.Slug | src/components/ProblemList.tsx:588-590 | same length; spaces become `-`; capitals become lower case; every other character is kept; the result has no space and no capital |
| View.SlugIdempotent | src/components/ProblemList.tsx:588-590 | a slug is its own slug |
| View.ProblemUrl | src/components/ProblemList.tsx:588-590 | the link is the LeetCode problems base address, then the slug of the title, then `/`; it has no space after the base |
| Text.ToLowerCharwise | src/components/ProblemList.tsx:163-168 | lower-casing keeps the length, lowers each ASCII capital by 32, keeps every other character, and leaves no capital |
| Text.ToLowerIdempotent | src/components/ProblemList.tsx:165-168 | lower-casing twice is lower-casing once |
| Text.IncludesFindsOccurrence | src/components/ProblemList.tsx:165-168 | `includes` holds exactly when the search text occurs at some position of the string |
| Text.IncludesEmpty | src/components/ProblemList.tsx:165-168 | the empty search text occurs in every string |
| Text.Sort | src/components/ProblemList.tsx:128 | the sorted date labels are an ascending permutation of the input under character-by-character comparison |
| Collections.Distinct | src/components/ProblemList.tsx:128 | de-duplication yields no repeats and keeps exactly the elements of the input |
| Collections.DistinctKeepsFirstAppearanceOrder | src/components/ProblemList.tsx:186 | de-duplication lists elements in order of their first appearance |

## Left out

- Markup, CSS classes, icons, `getDifficultyColor` and the expand/collapse
  state of day panels. They are presentation only.
- The `localStorage` reads and writes and `JSON.parse`/`JSON.stringify`.
  They are browser I/O. Stored values are modelled as an already parsed
  `Option`; a malformed entry, which would make `JSON.parse` throw, is not
  modelled.
- The notes write on every change (lines 67-69). It is a plain overwrite
  with no logic, so only the in-memory map is modelled.
- The transient write of `{}` at first mount, before the stored notes
  arrive. It is an effect-ordering artefact of React, not logic.
- Clock and date functions. `new Date().toISOString()` becomes the `now`
  parameter of `Progress.Toggle`. `new Date(t).toDateString()` becomes the
  `dateLabel` parameter, and parsing a label back into a calendar day
  becomes `dayNumber`.
- Stats.StreakLoop: gaps are whole day numbers, not `Math.ceil` of elapsed
  milliseconds. So a 25-hour calendar day at a daylight-saving change, which
  the source counts as a gap of 2, is not modelled.
- Stats.Percent: exact rational rounding, not IEEE double arithmetic. For
  23 of 40, `(23/40)*100` evaluates to 57.49999999999999 in double
  precision, so the source shows 57 where the model gives 58.
- The per-difficulty percentages at lines 346-368, including the unguarded
  `Math.round` that gives NaN for an empty bucket. They are floating-point
  presentation.
- Notes.NoteText: a title that names a member inherited from
  `Object.prototype` (`"constructor"`, `"__proto__"`) reads that member in
  the source, not `""`; the model treats notes as a plain map.
- Text.ToLowerCharwise: ASCII only. `toLowerCase` is Unicode-aware; non-ASCII
  letters are kept unchanged here.
- Text.Sort: compares Unicode scalar values, while JavaScript compares UTF-16
  code units. The two differ only above U+FFFF, which date labels never
  contain.
- Records read from a stored snapshot whose `completed` field is missing
  (`undefined`) or whose `difficulty` is outside Easy/Medium/Hard. The model
  types these fields as `bool` and a three-value enumeration.
- The rendered group key `Day <n>`. Groups are keyed by the day number
  itself, which determines that label one-to-one.
- The catalog contents from `src/helper/ProblemList`. That file is not part
  of this model; the seed takes the catalog as an arbitrary input sequence.
- `src/api/userService.ts`. It is a network call with no relation to the
  tracker.
