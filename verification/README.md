# BI office hours participants: a Dafny model of the rotation core

The app assigns two team members to every other Friday's BI office hours.
It keeps a participants table and a session history, both stored in one
spreadsheet. This project models the scheduling and rotation logic of
`app.py` and proves properties about it:

- **Calendar** (`calendar.dfy`): the default meeting date rule
  (`get_next_friday`). Dates are Python day ordinals (`date.toordinal`),
  limited to the representable range 0001-01-01 … 9999-12-31. The cadence
  anchor is 2024-01-05, which is day 738890.
- **Rotation** (`rotation.dfy`): the names excluded from the next draw, the
  draw itself (`get_next_participants`), and the "Assign Participants!"
  action that guards, draws and appends.
- **Ledger** (`ledger.dfy`): the session history table. It models appending
  a row (`add_participants_entry`), stacking the two participant columns, the
  per-name participation counts, and the date-descending display order.
- **Roster** (`roster.dfy`): the participants table. It models the
  active-name filter and the name-ascending order the table is saved in.
- **Seqs**, **Sorting**, **Outcome**: helpers. These are pandas `unique` and
  Python slicing, a stable insertion sort over any total preorder, and the
  `Option` wrapper for a date rule that raises.

Randomness becomes nondeterministic choice. `random.sample(xs, 2)` becomes a
method that picks two different positions of `xs` with `:|`. Its contract
says only which names can be drawn, never which ones are.

Points where the app behaves differently than a reader might expect:

- The history is flattened column by column: all `participant_1` names, then
  all `participant_2` names. It is not interleaved row by row.
- The excluded names are the *earliest* three distinct names of that stacked
  list, not the most recent ones.
- `get_next_friday` does not always return an on-cadence date (see Findings).
- Too few eligible names is not a recoverable error. The draw raises; only
  fewer than two *available* names gets a warning (see Findings).
- The history sort promises no order among rows with the same date.

## Model

| member | source | states |
|---|---|---|
| Calendar.Weekday | app.py:52 | the weekday number is in 0..6 and advances with the day; the anchor 2024-01-05 is a Friday (4) |
| Calendar.DaysUntilFriday | app.py:52 | the offset `(4 - weekday) % 7` is in 0..6, lands on a Friday, and is the smallest offset that does |
| Calendar.NaiveFriday | app.py:52-53 | today plus the offset is the first Friday on or after `today`; no earlier day from `today` is a Friday; it never passes the last representable date |
| Calendar.OnCadenceIsFriday | app.py:54 | every day a multiple of 14 days from the anchor is a Friday |
| Calendar.WeekAfterOffCadence | app.py:54-55 | an off-cadence Friday is 7 (mod 14) days from the anchor; the next Friday is on cadence and nothing in between is |
| Calendar.NextFriday | app.py:51-56 | the result is a Friday between `today` and `today + 20`; it is the naive Friday when that is on cadence, otherwise the naive Friday plus 14; its distance from the anchor mod 14 equals the naive Friday's; it fails (overflow) exactly when an off-cadence naive Friday plus 14 passes 9999-12-31 |
| Calendar.NextFridayKeepsMeetingDay | app.py:51-56 | an on-cadence `today` is returned as itself |
| Calendar.NextFridayKeepsParity | app.py:54-55 | the result is on cadence if and only if the naive Friday was, so the two-week correction never fixes an off-cadence date |
| Calendar.NextFridayMissesCadence | app.py:54-55 | 2024-01-06 is scheduled for 2024-01-26, 21 days after the anchor and off cadence |
| Calendar.NextMeetingDay | app.py:51-56 | corrected rule: the result is on cadence, a Friday, within 13 days of `today`, and no earlier day from `today` is on cadence; it fails only when no on-cadence day remains in the date range |
| Calendar.NextFridayOneWeekLate | app.py:54-55 | whenever the as-written rule yields a date, the corrected rule does too; the two agree on an on-cadence naive Friday and otherwise differ by exactly 7 days |
| Seqs.SliceTo | app.py:59 | Python `s[:n]` is a prefix of `s` with `min(n, len)` elements for `n >= 0`, and all but the last `-n` for negative `n` |
| Seqs.Unique | app.py:59 | `Series.unique()` has no repeats and holds exactly the elements of its input |
| Seqs.UniqueSnoc | app.py:59 | appending an element extends the deduplicated list by that element exactly when it is new |
| Seqs.UniquePrefix | app.py:59 | deduplicating a longer prefix of the input only appends, so the result lists names in first-appearance order |
| Seqs.UniqueRank | app.py:59 | each name sits in the deduplicated list at the position equal to the number of distinct names before its first occurrence |
| Seqs.UniqueOfNoDup | app.py:59 | deduplicating a list without repeats returns it unchanged |
| Seqs.FirstDistinct | app.py:59 | a name is among the first `n` deduplicated names iff it occurs and fewer than `n` distinct names precede its first occurrence |
| Rotation.Recent | app.py:59 | the excluded names have no repeats and all occur in the history |
| Rotation.RecentLength | app.py:59 | with a non-negative threshold, `min(threshold, number of distinct names)` names are excluded |
| Rotation.RecentOfEmpty | app.py:97 | an empty history excludes nobody |
| Rotation.RecentIsEarliest | app.py:59 | a name is excluded iff it occurs in the history and fewer than `threshold` distinct names occur before its first occurrence (earliest, not latest) |
| Rotation.RecentOfDistinctPrefix | app.py:59 | when the first `k` history names are all different, exactly those are excluded |
| Rotation.Eligible | app.py:60 | a name is eligible iff it is available and not excluded; no repeats if the available names have none |
| Rotation.EligibleCounts | app.py:60 | each name's multiplicity in the eligible list is zero when it is excluded and its multiplicity among the available names otherwise |
| Rotation.TwoPositions | app.py:61 | the names at two different positions of a list form a sub-multiset of it, which is what sampling two without replacement draws |
| Rotation.SelectNextPair | app.py:58-61 | the draw fails iff fewer than two names are eligible; otherwise the two names together are a sub-multiset of the eligible list (two different positions), both are available, neither is excluded, and they differ when the available names have no repeats |
| Rotation.AssignParticipants | app.py:91-104 | fewer than two available names yields the warning and nothing else; with two or more the draw raises iff fewer than two are eligible; on success the pair is a sub-multiset of the eligible list, so its two names differ when the available names have no repeats, and the history gains exactly that row |
| Rotation.AvailabilityGuardTooWeak | app.py:93-100 | with one session (A, B) on record and available names [A, B], the guard passes but nobody is eligible |
| Rotation.AssignParticipantsGuarded | app.py:93-104 | corrected action: it never raises; it warns iff fewer than two names are eligible; on success the pair is a sub-multiset of the eligible list, two different names when the available names have no repeats, and the history gains exactly that row |
| Rotation.ColumnOrderScenario | app.py:96-100 | with sessions (A, B), (C, D), (E, F) the excluded names are A, C, E: the column order decides, not the session order |
| Ledger.FirstColumn | app.py:97 | the `participant_1` column has one entry per row, the row's first name |
| Ledger.SecondColumn | app.py:97 | the `participant_2` column has one entry per row, the row's second name |
| Ledger.Melt | app.py:97 | the stacked history has two entries per row; row `i`'s names sit at positions `i` and `rows + i` |
| Ledger.Append | app.py:63-66 | the history grows by one row; earlier rows are unchanged and in order; the last row is `(date, first, second)` |
| Ledger.AppendColumns | app.py:63-66 | appending a row adds its names to the end of each column, so they land apart in the stacked history |
| Ledger.Bump | app.py:115 | counting one more occurrence raises that name's count by one and leaves every other count alone; it adds a row only for a new name; the total grows by one |
| Ledger.GroupSizes | app.py:115 | one row per distinct name, no name twice, each count equal to the name's number of occurrences, counts summing to the input length |
| Ledger.Frequency | app.py:114-115 | a name has a row iff it appears in either column; its count is its occurrences in `participant_1` plus those in `participant_2`; every count is positive; counts sum to twice the number of rows |
| Ledger.FrequencyAfterAppend | app.py:63-66 | recording a session raises each of its two names' counts by one (by two if they coincide) and no other count |
| Ledger.SortByDateDesc | app.py:111 | the displayed history is a permutation of the ledger with non-increasing dates |
| Ledger.SortByDateDescIdempotent | app.py:111 | with the model's fixed tie order (ledger order among equal dates), sorting the displayed history again leaves it unchanged; the app itself never re-sorts a sorted table |
| Sorting.Insert | app.py:160 | inserting adds exactly one element and keeps a sorted list sorted under a total preorder |
| Sorting.Sort | app.py:111 | the sorted list is a permutation of the input, sorted under any total preorder |
| Sorting.SortIdempotent | app.py:111 | the model's stable sort returns an already sorted list unchanged, a property of its fixed tie order rather than of anything the app does twice |
| Roster.ActiveNames | app.py:87 | a name is offered for selection iff some row with that name is flagged active; never more names than rows |
| Roster.ActiveNamesAppend | app.py:87 | the filter keeps table order: filtering a split table gives the filtered parts in order |
| Roster.NameLeqTotal | app.py:160 | any two names are comparable in Python's string order |
| Roster.NameLeqTransitive | app.py:160 | Python's string order is transitive |
| Roster.NameLeqAntisymmetric | app.py:160 | two names each at most the other are equal |
| Roster.SortByName | app.py:160 | the saved table is a permutation of the edited table with names ascending |
| Roster.SortByNameIdempotent | app.py:160 | with the model's fixed tie order (table order among equal names), re-sorting a name-sorted table leaves it unchanged; the app's sort guarantees this only when names are distinct |
| Roster.SortByNameKeepsActiveNames | app.py:160 | sorting on save neither adds nor removes any name offered for selection |

## Left out

- Azure blob client, SAS setup, download and upload (app.py:14-24, 33-36): network I/O.
- Spreadsheet writing and reading (app.py:26-31, 43-49), including parsing the stored date strings: library I/O. The model starts from a history whose dates are already valid days.
- The Streamlit page: widgets, messages, caching and cache clearing (app.py:72-163). The user's choices become parameters: `available` for the multiselect, `nextDate` for the date input.
- The Altair bar chart (app.py:117-124): presentation only. The counts it draws are modelled by `Ledger.Frequency`.
- Gregorian year/month/day conversion: dates are day ordinals.
- The randomness of `random.sample`: it is replaced by nondeterministic choice, so no claim about fairness or distribution is made.
- Missing values: names left empty in the data editor and missing `is_active` flags are not modelled. A missing flag is treated as inactive, as the comparison with `True` does. Names are always strings.
- The local-file variant of the app is not part of this model.
- The "Save Results" checkbox (app.py:101): it is created inside the branch of the "Assign Participants!" button, so on the only run that draws a pair it is a new widget and reads its default, checked. Unchecking it reruns the page without the button, so no draw happens. The model therefore always appends the drawn pair.
- Roster.SortByName: rows with the same name keep their table order in the model, whereas the app's sort leaves their order open. The contract states only what the app promises: a permutation with names ascending.
- Ledger.SortByDateDesc: rows with the same date keep their ledger order in the model, whereas the app's sort leaves their order open. The contract states only what the app promises: a permutation with non-increasing dates.
- Ledger.Frequency: the rows are kept in first-appearance order, whereas `groupby` orders them by name. The chart re-sorts by count, and the contract is about names and counts only.

## Findings

| source | as written | input that shows it | evidently intended | confidence | as-written member | corrected member |
|---|---|---|---|---|---|---|
| app.py:54-55 | an off-cadence next Friday gets 14 days added, which keeps it off cadence | today = 2024-01-06 gives 2024-01-26, 21 days after the anchor | add 7 days, giving the first on-cadence Friday on or after today | high; not executed | Calendar.NextFriday, shown by Calendar.NextFridayMissesCadence | Calendar.NextMeetingDay |
| app.py:93-100 | the guard checks only that two names are available; `random.sample` raises when fewer than two remain after the exclusion | history [(A, B)], available [A, B] | show the warning whenever fewer than two names are eligible | high; not executed | Rotation.AssignParticipants, shown by Rotation.AvailabilityGuardTooWeak | Rotation.AssignParticipantsGuarded |
