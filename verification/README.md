# java-commit-monitor — a Dafny model of its statistics and dashboard logic

java-commit-monitor turns a Git history into a study-progress dashboard. It has two parts:

- **The generator** (`generate_git_stats.py`) normalises each commit.
  - `process_data` keeps the record and adds its local calendar day, hour of day and Monday-first weekday.
  - `generate_visuals` derives three tables: the per-day commit counts, the (weekday, hour) activity matrix and the top-10 author leaderboard.
  - `main` produces nothing when the history is empty.
- **The dashboard** (`public/script.js`) shows the data.
  - `formatDate` labels an instant as "今天 HH:MM", "昨天 HH:MM", "<n>天前" or "YYYY-MM-DD".
  - The colour scale of the activity heatmap tops out at the largest cell count, or at 5 when every cell is empty.
  - Each heatmap cell arrives as an `(hour, weekday, count)` triple, and its tooltip names the weekday and hour from two label lists.

The model has six modules:

- `Counting` (`counting.dfy`): occurrence counts and tallies; first-seen de-duplication; ascending key lists; a stable by-count ranking. It also proves the conservation law: a tally over distinct keys sums to the number of records.
- `Clock` (`clock.dfy`): the split of a local instant into day number, hour, minute and leftover ticks. The unit is a parameter: seconds for the generator, milliseconds for the dashboard.
- `Civil` (`civil.dfy`): the proleptic Gregorian calendar on day numbers, with day 0 = 1970-01-01.
  - It converts a day number to a date and back, and proves the round trip.
  - Weekdays are Monday-first.
- `Decimal` (`decimal.dfy`): decimal rendering of integers (`toString`), `padStart`, and the parsing that reads such text back.
- `GitStats` (`git_stats.dfy`): the generator's normalisation, its three tables and the empty-history guard.
- `Dashboard` (`dashboard.dfy`): `formatDate`, the heat-scale maximum and the tooltip layout of heatmap triples.

Time zones:

- The host's local time zone is an explicit offset parameter: seconds on the generator side, milliseconds on the dashboard side.
- Day, hour and minute fields use floor division, so instants before 1970 split the way Python's `datetime` and JavaScript's `Date` split them, within the range those libraries accept (see "## Left out").

`formatDate` picks its form from elapsed whole 24-hour periods, not from calendar days. An instant at 23:00 yesterday, seen at 01:00 today, is labelled "今天 23:00". `Dashboard.TodayIsElapsedTime` states this behaviour; the model follows the code.

## Model

| member | source | states |
|---|---|---|
| Clock.ReadingOf | generate_git_stats.py:40-41 | the hour is in 0..23, the minute in 0..59 and the leftover ticks below one minute, and day, hour, minute and leftover recompose exactly to the local instant |
| Clock.ReadingUnique | generate_git_stats.py:40-41 | any in-range day/hour/minute/leftover split of a local instant is its reading, so the date and hour columns are determined by the instant |
| GitStats.Stamp | generate_git_stats.py:39-44 | a normalised commit keeps its record, its hour is in 0..23, the local instant lies inside that day and hour, and its Monday-first weekday position is (day + 3) mod 7 (1970-01-01 was a Thursday) |
| GitStats.ProcessData | generate_git_stats.py:38-45 | one normalised record per commit, in order, each keeping its original commit, with the hour in 0..23 |
| GitStats.DailyCounts | generate_git_stats.py:48 | days strictly ascending (so distinct); a day is listed iff some commit falls on it; each count is that day's true number of commits and at least 1; the counts sum to the number of commits |
| GitStats.AllCellsComplete | generate_git_stats.py:43-44 | the Monday-first weekday categories times 24 hours give 168 distinct cells, containing every (weekday, hour) with hour in 0..23 |
| GitStats.Heatmap | generate_git_stats.py:49 | cells distinct and in grouping order (Monday first, then by hour); with `observed` a cell is listed iff it has a commit, without it iff its hour occurs in some commit; each count is the true number of commits in the cell (at least 1 with `observed`); counts sum to the number of commits |
| GitStats.HeatmapEntry | generate_git_stats.py:49 | every cell that holds a commit has a heatmap entry with its true count, whichever way empty cells are treated |
| GitStats.Leaderboard | generate_git_stats.py:50 | the leaderboard holds min(10, number of distinct authors) entries |
| GitStats.RankedAuthorsComplete | generate_git_stats.py:50 | the full ranking lists every author exactly once, each with the author's true commit count, counts non-increasing |
| GitStats.LeaderboardIsTopK | generate_git_stats.py:50-51 | at most 10 entries; no author twice; true counts; non-increasing; an author left off implies the board is full and that author has no more commits than the last entry |
| GitStats.LeaderboardWithinTotal | generate_git_stats.py:50 | the leaderboard's counts sum to no more than the number of commits |
| GitStats.TotalOfPermutation | generate_git_stats.py:50 | reordering count entries (as the by-count sort does) does not change their sum |
| GitStats.Run | generate_git_stats.py:74-79 | for either treatment of empty heatmap cells: no output iff the history is empty; otherwise the daily and heatmap counts each sum to the number of commits and the leaderboard has at most 10 entries |
| Counting.TallyConserves | generate_git_stats.py:48-49 | when every record's key is among distinct keys, the group sizes sum to the number of records |
| Counting.Distinct | generate_git_stats.py:50 | the distinct authors: no repeats, and a value is listed iff it occurs |
| Counting.RankByCount | generate_git_stats.py:50 | the ranking is a permutation of its input with counts non-increasing |
| Counting.RankingPrefix | generate_git_stats.py:50 | the first n entries of a ranking are a ranking with distinct keys; every later entry counts no more than the n-th; every omitted key occurs later |
| Counting.AscendingKeys | generate_git_stats.py:48 | the group keys in strictly ascending order, a key listed iff it occurs |
| Counting.CountPositive | generate_git_stats.py:48 | a key is counted at least once iff it occurs |
| Civil.WeekdaySuccession | generate_git_stats.py:42 | day 0 (1970-01-01) is a Thursday, and n days after any day the weekday has advanced n places in the Monday..Sunday cycle |
| Civil.CivilFromDays | generate_git_stats.py:40 | every day number maps to a valid Gregorian date whose day number is the same |
| Civil.CivilRoundTrip | public/script.js:34 | the date of a valid date's day number is that date |
| Civil.DaysFromCivilInjective | generate_git_stats.py:40 | distinct valid dates have distinct day numbers |
| Civil.DayOrderIsDateOrder | generate_git_stats.py:48 | ascending day numbers are ascending calendar dates (year, then month, then day) |
| Civil.MonthsFillYear | public/script.js:34 | the twelve month lengths add up to the year's length (365, or 366 in a Gregorian leap year) |
| Decimal.NatToStringRoundTrip | public/script.js:32 | a natural number's text is non-empty, all digits, with no leading zero, and reads back as the same number |
| Decimal.IntToStringRoundTrip | public/script.js:34 | an integer's text (minus sign for negatives) reads back as the same integer |
| Decimal.PadStart | public/script.js:28 | a string at least as long as the width is unchanged; a shorter one is filled on the left up to the width and ends with the original |
| Decimal.Pad2 | public/script.js:28 | a number below 100 becomes exactly two digits that denote it, the first being '0' below 10, and a larger number becomes its plain decimal text |
| Dashboard.DiffDays | public/script.js:24-25 | the result d satisfies d·86 400 000 ≤ \|now − date\| < (d+1)·86 400 000, so it is the floor and never negative |
| Dashboard.DiffDaysSymmetric | public/script.js:24 | an instant k ms in the past and one k ms in the future are the same number of days away |
| Dashboard.Classify | public/script.js:27-35 | the four forms partition the elapsed days: "today" iff 0, "yesterday" iff 1, "n days ago" iff 2..6 (with n the elapsed days), a date iff ≥ 7; the clock fields are the hours and minutes of the local reading; the date is the valid calendar date of the local day |
| Dashboard.ParseRender | public/script.js:27-35 | reading a label's text back gives the label, so the four forms never produce the same text |
| Dashboard.FormatDate | public/script.js:21-36 | 0 days gives an 8-character "今天 HH:MM"; 1 day "昨天 HH:MM"; 2..6 days "<n>天前"; 7 or more the year's decimal text (no leading zeros) followed by "-MM-DD"; the text always reads back as the chosen label |
| Dashboard.SameTextSameLabel | public/script.js:21-36 | two instants get the same text iff they get the same label |
| Dashboard.TodayIsElapsedTime | public/script.js:24-28 | an instant at 23:00 on one local day, seen at 01:00 on the next day, is labelled "今天 23:00" |
| Dashboard.MaxCount | public/script.js:173 | the largest value of a non-empty list is in the list and no value exceeds it |
| Dashboard.HeatScaleMax | public/script.js:173 | 5 when every count is 0; otherwise a count that occurs and that no count exceeds |
| Dashboard.HourLabels | public/script.js:148 | 24 pairwise distinct labels; label i ends in "时" and what precedes it is digits without a leading zero whose value is i |
| Dashboard.HourLabelNamesHour | public/script.js:148-155 | looking up an hour 0..23 in the hour labels gives text ending in "时" whose remainder reads back as that hour |
| Dashboard.HeatTriples | public/script.js:155 | each heatmap cell becomes (hour, weekday position, count), with the position in 0..6 and naming the cell's weekday |
| Dashboard.DayLabelsInOrder | public/script.js:147 | the weekday axis holds each weekday's Chinese name at its Monday-first position (周一 for Monday … 周日 for Sunday) |
| Dashboard.HeatmapTooltips | public/script.js:147-155 | one tooltip per heatmap cell, each the cell's weekday name, its hour followed by "时", and its count after "<br>学习次数: " |
| Dashboard.TooltipsNameTheirCell | public/script.js:147-155 | every (weekday, hour) cell holding at least one commit has its hour in 0..23 and a tooltip in the report's heatmap, for either treatment of empty cells, naming that weekday and hour and showing the true number of commits in the cell |

## Left out

- Cloning the repository, iterating commits, writing HTML, the Plotly and ECharts figures, the DOM and the loading animations (`fetch_commit_data`, the plotting part of `generate_visuals`, `initDashboard` apart from the heatmap labels): these are I/O and presentation. A commit is given as hash, author, Unix instant and message.
- The host's local time zone: it is a fixed offset parameter, so daylight-saving transitions are not modelled.
- The stripping of commit messages (`message.strip()`): the message is taken as already stripped and is carried unchanged.
- GitStats.Leaderboard: the order among authors with equal counts is not pinned. `value_counts` does not guarantee one. The model ranks ties stably in first-seen order, and its contracts state only properties that hold for any tie order.
- GitStats.Heatmap: which cells the grouping lists depends on the `observed` default of pandas' `groupby`, and the code does not set it. The model takes it as a parameter. With `observed` false (the default before pandas 3), `size()` lists every weekday category crossed with every hour that occurs, zeros included. With `observed` true (the default from pandas 3), it lists only cells that hold a commit.
- Dashboard.FormatDate: takes the instants as milliseconds. Years of magnitude 10^21 and above are not reachable by a valid `Date` and are not treated specially. Parsing the date string, the clock read, and the invalid-date (NaN) path are not modelled.
- Dashboard.HeatScaleMax: requires a non-empty heatmap. `Math.max()` of no values is −Infinity, and that path is not modelled.
- Dashboard.HeatTriples: the generator that writes the dashboard's data file is not part of this model. The triples are built from `GitStats.Heatmap` so that their layout (hour, weekday, count) can be checked against the tooltip.
- The range of instants the libraries accept: every integer instant is modelled. `datetime.fromtimestamp` accepts only years 1 to 9999. Before pandas 3, `pd.to_datetime` accepts only 1677-09-21 to 2262-04-11 and raises `OutOfBoundsDatetime` outside it. A JavaScript `Date` holds at most 8.64·10^15 ms either side of 1970 and is invalid beyond. These error paths are not modelled.
- The commit streak, total line count and "recent commits" list shown by the dashboard: no code computing them is part of this model.
- Some behaviour described for the system differs from the code, and the model follows the code:
  - ties on the leaderboard are described as broken by first occurrence;
  - the heatmap is described as listing only non-empty cells, which is the code's behaviour only when `observed` is true.
