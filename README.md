# statsfut passing statistics, modelled in Dafny

statsfut is a Streamlit dashboard (`main.py`). The user picks a competition,
season, team and match. The dashboard then fetches the match events from
StatsBomb's open data and builds a table of passing statistics for the
team's players. This project models the deterministic part of the script
that runs between fetching the data and drawing it. All of it is written as
pure functions over sequences of records:

- **Selection** (`selection.dfy`). The team options and the team's
  matches. The `match` label `home + " vs " + away`. The first match id for a
  chosen label. `get_opponent`, which splits the label on `" vs "`.
  `shorten_name`, which keeps the first and last whitespace-separated token.
- **Text** (`text.dfy`). Python's `str.split()` (runs of `str.isspace`
  characters) and `str.split(sep)` (leftmost, non-overlapping occurrences).
  Both are written out, with their join round trips.
- **Passes** (`passes.dfy`). The filter `type == "Pass"`. The split of the
  two-element `location` and `pass_end_location` lists into `x`, `y`,
  `pass_end_x`, `pass_end_y`. The filter on the selected team.
- **Stats** (`stats.dfy`). The per-player `groupby` counts of all passes,
  of completed passes (null `pass_outcome`) and of incomplete passes
  (non-null `pass_outcome`). The columns are aligned by player and
  zero-filled. The completion percentage is kept as the pair
  (completed, total) and compared by cross-multiplication. An exact `real`
  percentage is used only as the reference that this comparison is proved
  against. Then the descending sort.
- **Dashboard** (`dashboard.dfy`). The whole flow from match events to the
  sorted table, and a worked example with three passes by one player.
- `collections.dfy` holds the boolean-mask `Filter`, the column projection
  `Map` and `unique()` (`Distinct`). `wrappers.dfy` holds `Option`: Python's
  `IndexError` on a split with too few pieces or an empty selection
  becomes `None`.

Three points of main.py that the model states as they are:

- `get_opponent` does not check that the local team is on either side of
  the label. `OpponentUnvalidated` proves that, for a label whose home name
  satisfies `SafeTeamName` and whose away name holds no `" vs "`, it
  returns the away side for any team other than the away team.
- `sort_values` is called with its default, non-stable algorithm, so the
  model promises only a permutation ordered by percentage.
- `apply(pd.Series)` on a malformed `location` or `pass_end_location` is
  left to pandas; the model covers only passes whose two locations are
  pairs.

The label does not split back into its two names for every pair of team
names. `SplitLabel` proves that it does exactly when the home name
satisfies `SafeTeamName` (no `" vs "`, no `" vs"` at the end) and the away
name holds no `" vs "`. A home name ending in `" vs"` breaks the split
because the separator then overlaps the end of the name: the label
`"X vs vs Y"` splits as `["X", "vs Y"]`, and `OpponentOverlappingName`
proves that `get_opponent` then returns `"vs Y"` for `"Y"`. Only the
`get_opponent` round trip can survive a wrong split:
`OpponentOverlapRoundTrip` shows that `"vs vs"` against `"vs"` splits as
`["vs", "vs vs"]`, yet each side still gets the other back.

## Model

| member | source | states |
|---|---|---|
| `Collections.Filter` | main.py:155 | a boolean mask keeps exactly the rows satisfying the predicate, never more rows than the input |
| `Collections.FilterConcat` | main.py:171 | masking preserves order: the kept rows of a concatenation are the kept rows of each part, in sequence |
| `Collections.FilterCommutes` | main.py:180-185 | counting completed passes per player equals counting per player then keeping completed passes (masks commute) |
| `Collections.FilterComplement` | main.py:180-181 | `isnull()` and `notnull()` masks split a table into two parts whose sizes add up to the whole |
| `Collections.Map` | main.py:131 | a column projection has one value per row, the projected field of the row at the same position |
| `Collections.Distinct` | main.py:131 | `unique()` holds exactly the values of the input, each once |
| `Collections.PermutationNoDuplicates` | main.py:192 | reordering a duplicate-free table leaves it duplicate-free |
| `Text.Words` | main.py:34 | `str.split()` yields non-empty whitespace-free tokens, and no tokens exactly when the string is blank |
| `Text.WordsOfWord` | main.py:34 | a leading token ends at the first whitespace character and is split off whole |
| `Text.WordsSkipsBlank` | main.py:34 | leading, repeated or mixed whitespace (tabs, newlines) before the rest of a string yields no token |
| `Text.WordsJoinWords` | main.py:34-35 | splitting `" ".join(ws)` on whitespace gives `ws` back |
| `Text.IndexOf` | main.py:49 | finds the leftmost occurrence of the separator, or reports that there is none |
| `Text.SplitOn` | main.py:49 | `str.split(sep)`: pieces hold no separator; there is a second piece iff the separator occurs |
| `Text.JoinSplit` | main.py:49 | `sep.join(s.split(sep)) == s` |
| `Selection.TeamOptions` | main.py:131 | the team dropdown lists each home team of the match list once, and nothing else |
| `Selection.MatchesFor` | main.py:137-141 | a match is kept iff the team plays home or away, and every kept match carries the label `home + " vs " + away` |
| `Selection.MatchesForIsMask` | main.py:137-141 | the team's matches are the rows kept by the home-or-away mask, in match-list order, each with its label column added |
| `Selection.MatchOptions` | main.py:143 | the match dropdown lists each label of the team's matches once, and nothing else |
| `Selection.FirstMatchId` | main.py:144 | the id of the first row with the chosen label; None iff no row has it |
| `Selection.ChosenMatchResolves` | main.py:137-144 | every offered label resolves to the id of the earliest match of the selected team in the match list that carries that label; for every team match carrying the label whose home name is safe and whose away name holds no `" vs "`, `get_opponent` on it names the other side |
| `Selection.FirstOfTeam` | main.py:137-144 | `iloc[0]` on the team's matches with a label picks the earliest such match of the match list |
| `Selection.GetOpponent` | main.py:49-50 | the result is one of the first two pieces of the split; it fails iff the label has no `" vs "` |
| `Selection.SplitLabel` | main.py:141 | a label splits into exactly `[home, away]` if and only if the home name is safe and the away name holds no `" vs "` |
| `Selection.OpponentRoundTrip` | main.py:49-50 | for a safe home name and an away name without `" vs "`, `get_opponent(label, away) == home` and `get_opponent(label, home) == away` |
| `Selection.OpponentUnvalidated` | main.py:50 | for a safe home name and an away name without `" vs "`, any team other than the away side, even one on neither side, gets the away side |
| `Selection.OpponentOverlappingName` | main.py:49-50 | a home name without `" vs "` but ending in `" vs"` breaks the round trip: "X vs" against "Y" gives "vs Y" |
| `Selection.OpponentOverlapRoundTrip` | main.py:49-50 | "vs vs" against "vs" splits wrongly as `["vs", "vs vs"]`, yet `get_opponent` returns the other side in both directions |
| `Selection.OpponentExample` | main.py:38-50 | the opponent of "Team X" in "Team X vs Team Y" is "Team Y" |
| `Selection.ShortenName` | main.py:34-35 | fails iff the name is blank; otherwise the result splits into exactly the first and last tokens of the name |
| `Selection.ShortenSingleToken` | main.py:35 | a one-token name yields that token twice |
| `Selection.ShortenJoined` | main.py:34-35 | a name made of words keeps its first and last word, joined by one space |
| `Selection.ShortenNormalised` | main.py:34-35 | only the tokens matter: collapsing every whitespace run to one space first gives the same result, so `ShortenJoined` covers every name |
| `Selection.ShortenAcrossBlank` | main.py:34-35 | two names separated by any non-empty run of whitespace come back joined by exactly one space |
| `Selection.ShortenIdempotent` | main.py:34-35 | shortening a shortened name changes nothing |
| `Passes.SplitLocations` | main.py:160-168 | putting `x, y` and `pass_end_x, pass_end_y` back into lists gives the original locations; the other columns are carried over |
| `Passes.PassEvents` | main.py:155 | the pass table holds exactly the events of type "Pass" |
| `Passes.SplitAll` | main.py:160-168 | each row of the split table is the coordinate split of the pass at the same position |
| `Passes.NormalisePasses` | main.py:155-168 | one normalised row per pass event; row i is the coordinate split of the i-th pass, in match order |
| `Passes.TeamPasses` | main.py:171 | keeps exactly the passes whose team is the selected team |
| `Passes.TeamPassesOfMatch` | main.py:155-171 | the rows reaching the aggregation are exactly the team's passes of the match, in match order, with coordinates split |
| `Stats.GroupCount` | main.py:177 | a count for exactly the players who appear, equal to that player's number of passes and at least 1 |
| `Stats.FillZeroCounts` | main.py:186 | after `fillna(0)`, every player's count equals that player's number of rows, zero if absent |
| `Stats.JoinColumns` | main.py:184-186 | one row per totals key, with the completed and incomplete columns aligned by player and zero-filled |
| `Stats.ColumnCount` | main.py:184-185 | the count of a filtered table is the player's number of passes passing the filter |
| `Stats.PlayerTable` | main.py:177-190 | one row per distinct passer; total, completed (null outcome) and incomplete (non-null outcome) counts of that player |
| `Stats.PlayerTableCounts` | main.py:184-186 | in every row, completed + incomplete = total and total >= 1 |
| `Stats.PctAtLeastIsPercentageOrder` | main.py:191 | the cross-multiplied comparison orders rows exactly as `completed / total * 100` does |
| `Stats.PercentageInRange` | main.py:191 | the completion percentage lies in [0, 100] |
| `Stats.PctAtLeastTransitive` | main.py:192 | the percentage order is transitive when totals are positive |
| `Stats.InsertByPct` | main.py:192 | inserting into a sorted table keeps it sorted and adds exactly that row |
| `Stats.SortByPct` | main.py:192 | the sorted table is a permutation of its input, non-increasing by percentage |
| `Stats.SortedIsOrdered` | main.py:192 | with positive totals, each row's percentage is at least that of every later row |
| `Stats.PermutedPlayers` | main.py:192 | sorting keeps the set of players and keeps them distinct |
| `Stats.PassTableSpec` | main.py:177-192 | the final table is a permutation of the per-player rows, ordered by percentage; each row counts as above with percentage in [0, 100]; the players are exactly the distinct passers, once each |
| `Dashboard.PassingTableSpec` | main.py:155-192 | from match events: the rows count each player's passes among the team's passes, the players are exactly the team's passers, and the table is ordered by percentage |
| `Dashboard.ThreePassExample` | main.py:177-191 | three passes by "A" (two null outcomes, one "Incomplete") give the row total 3, completed 2, incomplete 1, at 200/3 percent |

## Left out

- Streamlit widgets, page layout, titles, the bar chart and `@st.cache_data` (main.py:18-22, 108-112, 132-134, 142, 146-147, 197-216). These are UI and runtime caching.
- The statsbombpy calls `sb.competitions`, `sb.matches` and `sb.events` (main.py:21, 128, 150). These are network calls; their results are the input sequences of the model.
- `pass_map` (main.py:53-99). It is matplotlib/mplsoccer drawing and floating-point heatmap binning.
- The season and competition id lookups (main.py:111-119). They select from the external catalogue.
- The player dropdown (main.py:211). It is a `unique()` over the table's player column, which `PassTableSpec` already shows to be duplicate-free.
- The application of `shorten_name` to the player column. It is commented out (main.py:174), so the model defines `ShortenName` but does not apply it.
- Floating point and NaN. The percentage is the exact pair (completed, total); `Percentage` is an exact `real`.
- The order of `groupby` keys (pandas sorts them by player name). Before sorting, the table lists players by first appearance. The following `sort_values` is non-stable and promises no tie order, so only the permutation and the percentage order are modelled.
- `SortByPct`: tie order is that of the insertion sort in the model. Like `sort_values`' default algorithm, the contract promises nothing about ties.
- Malformed or missing `location` / `pass_end_location` on a pass. `apply(pd.Series)` behaviour there is pandas-specific, so `NormalisePasses` requires every pass to carry two-element lists.
- `Text.IsSpace`: the whitespace set of Python's `str.isspace` is listed by hand (the ASCII separators, U+001C-U+001F, U+0085, U+00A0, U+1680, U+2000-U+200A, U+2028, U+2029, U+202F, U+205F, U+3000). There is no Unicode database here.
- `Collections.Distinct`: the order of first appearance that `unique()` keeps is not stated, only the values and their uniqueness; that order only reaches the dropdown order, which is UI.
